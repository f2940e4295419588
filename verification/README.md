# DataSpaces, verified

DataSpaces keeps boxes of an N-dimensional array on a set of servers. Clients put and get boxes of named,
versioned objects; the servers find each other's pieces through a spatial index. This project models that
core in Dafny and proves what it is for:

* **The Hilbert curve** (`MachineWords`, `BitStrings`, `HilbertCurve`, `HilbertIndex`, `Transposition`,
  `HilbertCode`, `HilbertStep`). The curve is defined digit by digit on bit strings, with the rotation and
  reflection a digit leaves behind. On that definition stand the bijection between points and indices, the
  neighbour property, prefixes and parity. The 64-bit code (both transpositions, both conversions and the
  increment) is written as loops over machine words and proved to compute it.
* **Boxes to index intervals** (`Boxes`, `AlignedCubes`, `Intervals`, `Decomposition`, `LinkedQueue`,
  `SearchEnds`, `BoxToIntervals`, `RingSearch`). The 2^n-tree search with its linked queue and with its growing ring
  buffer, the corner loop, sorting and merging; both searches return one table, which covers exactly the box, and
  it is known for which boxes the search ends.
* **The cut of the domain over the servers** (`IndexRuns`, `HilbertShares`, `HilbertHash`, `Bisection`,
  `BisectionHash`, `BisectionCounts`, `HashCache`, `ElementCount`, `Ownership`, `Spaces`). Both hash versions
  partition the domain; counts add up; lookups name the owners; the cache never changes an answer.
* **Copying sub-arrays** (`SubArrayCopy`): the nested loops over row-major offsets.
* **Put, query and get** (`Descriptors`, `ObjectIndex`, `Subscriptions`, `VersionedStore`, `Rendezvous`,
  `IndexAgreement`, `Query`, `Reassembly`, `GetAfterPut`). Servers store and evict objects while index updates
  travel in any order; when index and stores agree is an equivalence; a query's descriptors tile its box; a get
  after a run restores every value; waiting lookups are released exactly when their elements have been put.
* **Broadcast and shutdown** (`ServerTree`, `TreeBroadcast`, `KillTokens`): flooding a binary tree from any rank,
  and counting kill tokens, as state machines over arbitrary runs.
* **Versions and metadata** (`VersionedStore`, `MetaSearch`): eviction by version modulo the number of bins, the
  window of versions kept, the search for the next and the last version.

Loops of the source are loops here, objects updated in place are classes or arrays, and every such method is
proved against a specification function or an outright statement; the lemmas then speak about the function.
A message in flight is an element of a collection, and any of them may be the next to arrive. A region under a
mutex is one step.

## What the code needs

The proofs show which conditions the code relies on. They appear as preconditions, each with the reason:

* Conversions: `nDims * nBits <= 64`, fewer than 32 dimensions (half words), and at most 30 bits per coordinate for
  `hilbert_incr`, whose mask is an `int`. `bbox_to_intv` gives the curve one bit more than the cube has.
* `bbox_to_intv` and `bbox_to_intv2` need a query box with points: for one without, the search ends if and only if the
  box begins outside the virtual cube (`SearchEnds.SearchEndsWhen`, `SearchEnds.EmptyBoxNeverEnds`). The box also has
  to meet the virtual cube, because `intv_compact` answers 1 for an empty table.
* `ssd_alloc_v1` needs a greatest upper bound that is no power of two (`HilbertHash.FitsUnlessPowerOfTwo`, an
  equivalence) and at least as many points as servers, since the hull of an empty share would be read from
  outside its table. The automatic choice of the hash meets the first condition except when the greatest upper bound
  is 1 (`HilbertHash.ChosenHilbertFits`), although the comment in the code speaks of powers of two.
* `matrix_copy` reads the tenth dimension of the source at the target's coordinate, which is right exactly when both
  boxes begin at the same tenth coordinate (`SubArrayCopy.TenthDimension`, an equivalence; an instance where they do
  not is `SubArrayCopy.TenthDimensionOff`).
* `ssd_hash_v2` may answer servers without elements when the domain is cut into empty boxes
  (`BisectionCounts.EmptyBoxAnswered`). It answers only owners, for every query box, if and only if each point whose
  unit box meets an empty box of a server belongs to that server (`BisectionCounts.AnswerIsOwnersWhen`).
* Boxes of one name that share a bin are the same or apart. Where lookups wait or values are read back, no element is
  put twice in one version, as the code's own warning asks.
* A put does not wait for the index updates of earlier puts. So a server may be told of an evicted object after its
  successor and then keeps pointing at it (`IndexAgreement.OvertakenRun`, `IndexAgreement.OvertakenExample`). It agrees
  with the stores exactly when the update it handled last is that of the last put
  (`IndexAgreement.AgreesExactlyWhen`), and a put is safe under every order of handling exactly when no update of
  another object of its name, box and bin is under way to the server (`IndexAgreement.EveryScheduleAgrees`). Runs whose
  puts all keep to that are called careful.
* The hash cache is one list for the whole process, looked up by box alone. Its answers are those of the space at hand
  as long as all calls that share it are made on one space.

## Model

| member | source | states |
|---|---|---|
| `HilbertCurve.IndicesOfCells` | include/sfc.h:133-223 | reading a point's bit planes into index digits undoes laying index digits out as bit planes, for every number of dimensions and digits: the digit form of c2i after i2c |
| `HilbertCurve.CellsOfIndices` | include/sfc.h:133-223 | the other composition: every sequence of bit planes is reached from exactly the index digits it is read into |
| `HilbertCurve.EntryStays` | include/sfc.h:35-43 | the first digit under a state lies in the corner the curve enters by, and the state below it enters by the same corner; this is what rotation and flip are updated for |
| `HilbertCurve.ExitStays` | include/sfc.h:35-43 | the same for the last digit and the corner the curve leaves by |
| `HilbertCurve.SuccessorCells` | include/sfc.h:978-1014 | counting an index up flips one bit of one coordinate and everything below it in that coordinate, and nothing else |
| `HilbertCurve.DigitParity` | include/sfc.h:185-223 | digit and cell parities agree along the whole descent |
| `HilbertIndex.PointOfIndex` | include/sfc.h:133-223 | the index of a grid point is below 2^(nDims*nBits) and i2c takes it back to the point |
| `HilbertIndex.IndexOfPoint` | include/sfc.h:133-223 | the point of an index lies in the grid and c2i takes it back to the index; with PointOfIndex a bijection |
| `HilbertIndex.ConsecutiveNeighbours` | include/sfc.h:133-170 | the points of two consecutive indices differ by exactly 1 in exactly one coordinate |
| `HilbertIndex.IndexPrefix` | include/sfc.h:185-223 | halving every coordinate drops exactly the last digit of the index |
| `HilbertIndex.IndexParity` | include/sfc.h:185-223 | an index is odd exactly when the sum of its coordinates is odd |
| `HilbertIndex.OneBitIsGray` | include/sfc.h:133-170 | with one bit to a coordinate the curve is the reflected Gray code of the index, dimension d at bit d |
| `HilbertIndex.CurveEnds` | include/sfc.h:133-170 | the curve begins at the origin and ends at the far corner of the last dimension |
| `HilbertCode.RotateMacros` | include/sfc.h:47-52 | on words that fit nDims bits the two shift-and-mask macros rotate left and right, for every amount below nDims |
| `HilbertCode.AdjustRotation` | include/sfc.h:35-43 | the word-level loop leaves the rotation the curve needs, which stays below nDims |
| `HilbertCode.HilbertC2I` | include/sfc.h:185-223 | the word-level conversion, with its transposition, running xor and rotations, computes the index of the curve |
| `HilbertCode.HilbertI2C` | include/sfc.h:133-170 | the word-level inverse writes into coord the point of the curve at index |
| `HilbertStep.NextPoint` | include/sfc.h:978-1014 | flipping the low bits of one coordinate, chosen by the decoded digits, gives the point of the next index |
| `HilbertStep.HilbertIncr` | include/sfc.h:978-1014 | for at most 30 bits and at least two dimensions hilbert_incr turns the point of an index into the point of the next one; at the last index it flips coordinate 0 |
| `Transposition.TransposeInverse` | include/sfc.h:54-117 | transposing with the arguments swapped undoes a transposition |
| `Transposition.ColumnsOfColumns` | include/sfc.h:54-117 | the columns of the columns of a bit matrix are its rows |
| `Transposition.TransposeAt` | include/sfc.h:54-117 | bit b of field d goes to bit d of field b, and nothing else is set |
| `Transposition.BitTranspose` | include/sfc.h:58-98 | the log-step halving of fields, odd widths included, moves bit b of field d to bit d of field b |
| `Transposition.BitTransposePlain` | include/sfc.h:100-117 | the bit-by-bit loop computes the same transposition |
| `MachineWords.AddCarryValue` | include/sfc.h:1000-1002 | 64-bit addition is addition modulo 2^64 |
| `MachineWords.SubtractValue` | include/sfc.h:70 | 64-bit subtraction is subtraction modulo 2^64: when it wraps, 2^64 is added |
| `MachineWords.NegateValue` | include/sfc.h:35-43 | two's complement negation is negation modulo 2^64, zero included |
| `MachineWords.OnesMacroValue` | include/sfc.h:45-46 | ones(k) is 2^k - 1 for every k from 1 to the word width |
| `AlignedCubes.CubeInterval` | src/bbox.c:214-249 | a point lies in an aligned cube exactly when its index lies between the cube's first and last index |
| `AlignedCubes.IndexOfHalves` | src/bbox.c:214-249 | dropping the k low bits of the coordinates drops the k low digits of the index |
| `AlignedCubes.ExtremesAreCorners` | src/bbox.c:214-249 | the first and last index of an aligned cube belong to corners of the cube |
| `BoxToIntervals.LowerCornerNotLast` | src/bbox.c:242-246 | the lower corner, visited first, never has the cube's greatest index when the side is at least 2 |
| `BoxToIntervals.ExtremeCorners` | src/bbox.c:228-247 | some corner of the loop has the first index and some corner other than the first has the last, so that the else-if loses neither |
| `BoxToIntervals.BBoxFlat` | src/bbox.c:214-249 | the loop over corners returns exactly the interval of the cube's indices |
| `BoxToIntervals.ComputeBits` | src/bbox.c:197-208 | the loop counts the binary digits of a number |
| `Intervals.SortSorts` | src/bbox.c:251-261 | sorting orders by lower bound and keeps how often each index is held |
| `Intervals.SortUnique` | src/bbox.c:251-261 | with distinct lower bounds there is only one sorted table, whatever algorithm the library uses |
| `Intervals.IntvCompact` | src/bbox.c:264-282 | the in-place merge yields the merged table in front; for an empty table it answers 1 and changes nothing |
| `Intervals.CompactKeeps` | src/bbox.c:264-282 | merging an increasing table keeps what every index is held and the total size, and leaves no two neighbours adjacent |
| `Intervals.ElementsSize` | src/bbox.c:264-282 | the sizes of an increasing table add up to the number of indices it covers |
| `Boxes.BBoxInclude` | src/bbox.c:102-122 | bbox_include compares all bounds |
| `Boxes.IncludesMeansPoints` | src/bbox.c:102-122 | for a box with points bbox_include holds exactly when all its points lie in the other box |
| `Boxes.BBoxDoesIntersect` | src/bbox.c:128-150 | bbox_does_intersect compares the bounds in every dimension |
| `Boxes.MeetsMeansPoint` | src/bbox.c:128-150 | for boxes with points bbox_does_intersect holds exactly when they share a point |
| `Boxes.BBoxIntersect` | src/bbox.c:157-167 | the loop computes the box of greatest lower and least upper bounds |
| `Boxes.InIntersection` | src/bbox.c:157-167 | a point lies in that box exactly when it lies in both |
| `Boxes.BBoxEquals` | src/bbox.c:172-183 | bbox_equals holds exactly for equal boxes |
| `Boxes.BBoxVolume` | src/bbox.c:185-195 | the loop multiplies the extents; sizes that are zero are allowed |
| `Boxes.PointsNumber` | src/bbox.c:185-195 | the volume of a box is the number of its points |
| `Decomposition.BBoxDivide` | src/bbox.c:76-97 | entry i of the table is the half whose bit d chooses the upper side of dimension d; other entries stay |
| `Decomposition.PartAt` | src/bbox.c:76-97 | half i has in dimension d the upper side, from the middle plus one, if bit d of i is set, and the lower side up to the middle otherwise |
| `Decomposition.PartOfCube` | src/bbox.c:76-97 | the halves of an aligned cube are the aligned cubes of half the side |
| `Decomposition.InChild` | src/bbox.c:76-97 | a point of a cube lies in exactly one of the halves |
| `Decomposition.UnitCube` | src/bbox.c:315-334 | a unit cube that meets the query box is included in it |
| `Decomposition.DivideLowersWeight` | src/bbox.c:315-334 | dividing a cube lowers a weight summed over the queue, so the search ends |
| `Decomposition.SearchCounts` | src/bbox.c:315-334 | the cubes found hold a point of the virtual cube once if it lies in the query box and never otherwise |
| `SearchEnds.SearchEndsWhen` | src/bbox.c:315-334 | for every query box the search queue runs empty after some number of turns if and only if the box has points or its lower bounds lie outside the virtual cube |
| `SearchEnds.TurnsStayStuck` | src/bbox.c:315-334 | for a box without points whose lower bounds lie in the cube, a part that holds them stays queued after every number of turns |
| `SearchEnds.EmptyBoxNeverEnds` | src/bbox.c:315-334 | a concrete box without points for which the search never ends |
| `BoxToIntervals.ExamineBox` | src/bbox.c:315-334 | one pass of the loop body is one such turn, for query boxes with and without points |
| `Decomposition.TableIncreasing` | src/bbox.c:284-351 | the resulting table is sorted, disjoint and has no adjacent intervals |
| `Decomposition.TableCovers` | src/bbox.c:284-351 | it covers the index of a grid point exactly when the point lies in the box and in the virtual cube |
| `Decomposition.TableSize` | src/bbox.c:284-351 | for a box inside the virtual cube its indices are exactly those of the box's points, and their number is the box's volume |
| `LinkedQueue.Queue.Enqueue` | include/queue.h:60-75 | the object comes last in the queue |
| `LinkedQueue.Queue.Dequeue` | include/queue.h:77-94 | the oldest object leaves; an empty queue answers nothing and stays empty |
| `BoxToIntervals.FindCubes` | src/bbox.c:297-334 | the linked-queue search ends and collects the intervals of exactly the cubes of the search, in its order |
| `BoxToIntervals.BBoxToIntv` | src/bbox.c:284-351 | bbox_to_intv returns the table of the box |
| `RingSearch.RingAdvance` | src/bbox.c:429 | freeing a used-up block of the ring keeps all pending boxes in place and in order |
| `RingSearch.RingFull` | src/bbox.c:399 | the ring is full exactly when the pending blocks fill all but one block of it |
| `RingSearch.RingAppend` | src/bbox.c:425-426 | appending a block of parts adds them behind the pending boxes and overwrites none, across the wrap |
| `RingSearch.GrowRing` | src/bbox.c:402-423 | growing copies the pending boxes, wrapped or not, to the front of a ring half as large again, rounded down to whole blocks, in the same order |
| `RingSearch.FindCubesRing` | src/bbox.c:356-431 | the ring search finds the same cubes in the same order as the queue search |
| `RingSearch.BBoxToIntv2` | src/bbox.c:356-440 | bbox_to_intv2 returns the same table as bbox_to_intv |
| `IndexRuns.CutShare` | src/ss_data.c:362-372 | the inner loop moves exactly the asked number of indices from the front of the table, cutting at most one interval, into a table that never outgrows the whole one |
| `IndexRuns.SharesAddUp` | src/ss_data.c:344-349 | the shares add up to the volume |
| `IndexRuns.SharesNearlyEqual` | src/ss_data.c:344-349 | shares of two servers differ by at most one, and no server has less than a later one: the remainder goes to the first servers |
| `HilbertShares.DhtConstructHash` | src/ss_data.c:334-389 | server k gets the indices from the sum of the shares before it to the sum with its own, in curve order; its hull runs from its first to its last index |
| `HilbertShares.HullHoldsOwn` | src/ss_data.c:374-375 | the hull of a server holds no index of the domain but the server's own |
| `HilbertShares.HullsApart` | src/ss_data.c:374-375 | hulls are disjoint and in rank order |
| `HilbertShares.SharesPartition` | src/ss_data.c:334-389 | every point of the domain has exactly one server |
| `HilbertShares.OwnedSize` | src/ss_data.c:344-379 | a server owns as many points as its share says, and never none |
| `HilbertShares.ElemCountV1` | src/ss_data.c:1467-1494 | the overlap arithmetic counts the box's points whose index lies in the server's hull |
| `HilbertShares.CountsAddUpV1` | src/ss_data.c:1467-1494 | for a box inside the domain the servers' counts add up to the volume of the box |
| `HilbertHash.FitsUnlessPowerOfTwo` | src/ss_data.c:448-457 | the virtual cube chosen by ssd_alloc_v1 holds the domain if and only if the greatest upper bound is no power of two |
| `HilbertHash.FiveByFourDoesNotFit` | src/ss_data.c:448-457 | a concrete domain that does not fit |
| `HilbertHash.ChooseHash` | src/ss_data.c:1370-1390 | the heuristic chooses the Hilbert hash exactly when every upper bound plus one is a power of two |
| `HilbertHash.ChosenHilbertFits` | src/ss_data.c:1370-1390 | where the heuristic chooses the Hilbert hash the virtual cube holds the domain if and only if the greatest upper bound is not 1 |
| `HilbertHash.SsdAllocV1` | src/ss_data.c:430-471 | with a domain that fits and at least as many points as servers, every server gets its share |
| `HilbertHash.DhtIntersect` | src/ss_data.c:317-328 | the test by hull and table holds exactly when the server's share and the interval have an index in common |
| `HilbertHash.TouchesMeansOwns` | src/ss_data.c:493-502 | a server's share touches a box's table exactly when the server owns a point of the box |
| `HilbertHash.FindHolders` | src/ss_data.c:491-502 | the double loop answers exactly the servers that own a point of the box, in rank order |
| `HilbertHash.SsdHashV1` | src/ss_data.c:480-509 | with the cache the answer is the same as without; the cache stays in agreement for every later call and grows by the answer unless it had one for the box that is not empty |
| `HashCache.ShCache.ShAdd` | src/ss_data.c:122-144 | an entry is added at the end of the list |
| `HashCache.ShCache.ShFind` | src/ss_data.c:146-161 | the nodes of the first entry for the box are answered, and -1 exactly when there is none |
| `Bisection.GetBBoxMaxDimSize` | src/ss_data.c:197-210 | the first dimension of greatest extent and that extent; the dimension stays as it was for a box with no extent |
| `Bisection.InHalves` | src/bbox.c:60-70 | a point of a box lies in exactly one of the two halves, and sizes never wrap |
| `Bisection.BisectRound` | src/ss_data.c:545-560 | one round empties one queue and fills the other with the two halves of every box in turn, cut along its first longest side; the lower half has as much of it as the upper one or one more |
| `Bisection.BisectDomain` | src/ss_data.c:530-567 | between rounds exactly one queue holds boxes; at the end it holds the domain after the asked number of such rounds |
| `Bisection.HalvedUnique` | src/ss_data.c:545-560 | there is only one such pair of halves for a box |
| `Bisection.RoundsUnique` | src/ss_data.c:534-561 | so a number of rounds leaves one list of boxes and no other |
| `Bisection.RoundsCount` | src/ss_data.c:534-561 | after any number of rounds every point of the domain lies in exactly one box, and no other point in any |
| `Bisection.DealtFits` | src/ss_data.c:587-591 | no server is dealt more boxes than its table, sized by rounding up, has room for |
| `BisectionHash.DealOut` | src/ss_data.c:587-601 | the round-robin deal gives server j the boxes j, j + e, j + 2e and so on, and the tables together hold as many boxes as there are |
| `BisectionCounts.SsdAllocV2` | src/ss_data.c:511-608 | the tables hold, dealt in turn, the domain after some number of rounds; their number of boxes is a power of two, at least that of the servers and less than twice it, so every server gets one box or two |
| `BisectionCounts.BisectionPartition` | src/ss_data.c:511-608 | every point of the domain has exactly one server, empty boxes notwithstanding |
| `BisectionCounts.ElemCountV2` | src/ss_data.c:1496-1515 | the sum of intersection volumes counts the box's points in the server's boxes |
| `BisectionCounts.CountsAddUpV2` | src/ss_data.c:1496-1515 | for a box inside the domain the servers' counts add up to the volume of the box |
| `BisectionCounts.AnswerHoldsOwners` | src/ss_data.c:617-641 | ssd_hash_v2 answers every server with a non-zero count |
| `BisectionCounts.AnswerIsOwners` | src/ss_data.c:617-641 | when no box is empty it answers no other |
| `BisectionCounts.AnswerIsOwnersWhen` | src/ss_data.c:617-641 | it answers exactly those for every query box if and only if every point whose unit box meets an empty box of a server belongs to that server |
| `BisectionCounts.EmptyBoxAnswered` | src/ss_data.c:617-641 | four cells over eight servers: a server that owns nothing is answered |
| `BisectionCounts.SsdHashV2` | src/ss_data.c:617-641 | with the cache the answer is the same as without, for every sequence of calls; the cache grows by the answer unless it had one for the box that is not empty |
| `ElementCount.ElemCount` | src/ss_data.c:1521-1543 | whatever the hash version, the number of the box's elements this server owns |
| `ElementCount.OwnsV1` | src/ss_data.c:430-471 | after ssd_alloc_v1 the count is taken over what the partition gives the server |
| `ElementCount.OwnsV2` | src/ss_data.c:511-608 | after ssd_alloc_v2 likewise |
| `Ownership.CountsAddUp` | src/ss_data.c:1467-1515 | in any partition the owners' counts of a set of domain points add up to their number |
| `SubArrayCopy.OffsetInjective` | src/ss_data.c:712-766 | different local coordinates have different row-major offsets |
| `SubArrayCopy.OffsetOnto` | src/ss_data.c:712-766 | every position of a buffer is the offset of some coordinates |
| `SubArrayCopy.OffsetOrigin` | src/ss_data.c:712-766 | the cell at the lower corner comes first in a buffer |
| `SubArrayCopy.OffsetStride` | src/ss_data.c:712-766 | a step in dimension d passes as many positions as the lower dimensions have cells: dimension 0 varies fastest |
| `SubArrayCopy.CopyDims` | src/ss_data.c:663-798 | the nested loops over the first k dimensions copy exactly the cells in view and count them |
| `SubArrayCopy.SsdCopy` | src/ss_data.c:819-837 | every target cell of the common box gets the source cell of the same point, all others stay, and the count is the common volume |
| `SubArrayCopy.SourceIsSame` | src/ss_data.c:663-798 | below ten dimensions the source cell has the target cell's global coordinates |
| `SubArrayCopy.TenthDimension` | src/ss_data.c:713-717 | in ten dimensions that is so if and only if both boxes begin at the same tenth coordinate |
| `SubArrayCopy.TenthDimensionOff` | src/ss_data.c:713-717 | two concrete ten-dimensional boxes for which another element of the source is read |
| `SubArrayCopy.SameBuffers` | src/ss_data.c:643-662 | a buffer over a box is determined by its elements for the points of the box |
| `ObjectIndex.Collect` | src/ss_data.c:1797-1820 | the descriptors that answer a query, each once and in the order of the bin, and the number of the server's elements of it they leave uncovered |
| `ObjectIndex.AddedUncovered` | src/ss_data.c:1729-1763 | adding a descriptor covers exactly its own points of the query, provided it overwrites none the query needs |
| `ObjectIndex.AddedPutOnce` | src/ss_data.c:1729-1763 | adding keeps the descriptors of one object apart |
| `Subscriptions.Waiter.Publish` | src/ss_data.c:1768-1782 | a waiting lookup is told of a descriptor exactly when it answers, and its remaining count stays the number of its uncovered elements |
| `Subscriptions.NeverNegative` | src/ss_data.c:1776-1781 | the remaining count is never negative and zero exactly when nothing is uncovered |
| `Subscriptions.PublishAll` | src/ss_data.c:1765-1786 | every waiting lookup is told; exactly those with nothing missing leave the list, the others keep their order |
| `Subscriptions.IndexNode.DhtAddEntry` | src/ss_data.c:1729-1791 | the descriptor takes the place of the first one it overlaps or else comes in front, odsc_num stays the number of all descriptors, every waiting lookup is told and exactly those it completes are released |
| `Subscriptions.IndexNode.DhtFindEntryAll` | src/ss_data.c:1797-1836 | a lookup that misses elements waits, or answers nothing when it may not wait; otherwise it answers all that covers its elements, in the order of the bin and never more than odsc_num |
| `Subscriptions.Resume` | src/ss_data.c:1691-1706 | what a released lookup returns is what it had collected followed by what it was told, which are the bin's answers and cover all its elements here |
| `Rendezvous.PutInv` | src/dspaces-server.c:1290-1386 | a put, whatever updates are still under way, keeps every store at what was put last at each name, box and bin, and every server told or about to be told of each put the hash names it for |
| `Rendezvous.DeliverInv` | src/dspaces-server.c:2539-2604 | handling any one of the updates in flight keeps that, and the server's bins at what it was told of last |
| `Rendezvous.RunInv` | src/dspaces-server.c:542-603 | so in every state of every run of puts and updates, evictions by newer versions included |
| `Rendezvous.LiveIsStored` | src/ss_data.c:987-1012 | the owner of a put that none has superseded keeps its object, in every state |
| `IndexAgreement.AgreesExactlyWhen` | src/dspaces-server.c:542-603 | when each box is always put through one server, a server agrees with the stores on a name, box and bin if and only if the update it handled last for it is that of the last put |
| `IndexAgreement.AgreesInRuns` | src/dspaces-server.c:542-603 | and so in every state of every run |
| `IndexAgreement.EveryScheduleAgrees` | src/dspaces-server.c:565-600 | with each box always put through one server, after a put in any state, every order of handling the updates in flight ends in agreement at a server the hash names if and only if no update of another object for the same name, box and bin is on its way to it |
| `IndexAgreement.OvertakenRun` | src/dspaces-server.c:565-600 | whenever two objects are put at one name, box and bin before the first update is handled, some run comes to rest with the server pointing at the evicted object |
| `IndexAgreement.OvertakenExample` | src/dspaces-server.c:565-600 | such a run for one server, two versions and one element |
| `IndexAgreement.CarefulSettles` | src/dspaces-server.c:542-603 | in runs whose puts wait for the updates of other objects of their place, whatever is pending for a place is its last put, and where nothing is, the last put has arrived |
| `IndexAgreement.IndexMatchesStores` | src/dspaces-server.c:542-603 | in such runs a server the hash names has exactly the descriptors of the stored objects wherever nothing is pending |
| `IndexAgreement.NothingStale` | src/dspaces-server.c:542-603 | and no descriptor of anything that is not stored |
| `IndexAgreement.LandedOrUnderway` | src/dspaces-server.c:542-603 | and every put that is not superseded is in the index of every server the hash names or on its way there |
| `IndexAgreement.QuietMeansLanded` | src/dspaces-server.c:542-603 | at rest every server knows, of any object, all puts not superseded that concern it and no others |
| `GetAfterPut.PutRpc` | src/dspaces-server.c:1372-1374 | storing the object takes a server's store, buffers included, from the state before the put to the state after it |
| `GetAfterPut.InFlightIsNew` | src/dspaces-server.c:2576-2588 | when no element of an object is put twice, no update in flight has been handled before by its server |
| `GetAfterPut.UpdateIsNew` | src/ss_data.c:1729-1763 | so what dht_add_entry adds is apart from all descriptors of the same object |
| `GetAfterPut.UpdateIsHarmless` | src/ss_data.c:1729-1763 | and in careful runs overwrites nothing that a waiting lookup whose version is in the window needs |
| `GetAfterPut.UpdateRpc` | src/dspaces-server.c:2576-2588 | dht_add_entry takes the server's index from the state before the update to the state after it, tells the waiting lookups and signals exactly when one is complete |
| `GetAfterPut.GetAfterRun` | src/dspaces-client.c:1312-1428 | after any careful run that has come to rest, a get of an object still in the version window, covered by its puts, restores every value that was put |
| `Spaces.HilbertSpaceOk` | src/ss_data.c:480-509 | the servers ssd_hash_v1 answers include every owner of an element |
| `Spaces.BisectionSpaceOk` | src/ss_data.c:617-641 | and so do those of ssd_hash_v2 |
| `Spaces.QueryHilbert` | src/dspaces-server.c:1759-1921 | hash, cache and query together: the servers ssd_hash_v1 names answer with pieces that tile the query |
| `Spaces.QueryBisection` | src/dspaces-server.c:1759-1921 | and so do those of ssd_hash_v2 |
| `Query.Dedup` | src/dspaces-server.c:1887-1907 | a descriptor joins the results, behind those there, unless one with the same name, version and box is there |
| `Query.Gather` | src/dspaces-server.c:1885-1908 | of all tables in the order of the peers the first descriptor of every name, version and box is kept, in that order |
| `Query.NothingMissing` | src/dspaces-server.c:2497-2500 | when landed puts cover the query no server misses an element of it |
| `Query.AskServer` | src/dspaces-server.c:1833-1855 | a server answers only clipped puts and one for each of its elements of the query |
| `Query.PiecesApart` | src/dspaces-server.c:1887-1907 | different pieces share no point |
| `Query.GetQueryOdscs` | src/dspaces-server.c:1759-1921 | the returned descriptors tile the query box: inside it, pairwise apart, together all of it |
| `Reassembly.PieceFindsPut` | src/ss_data.c:1053-1069 | the object an owner finds for a piece is the put the piece was clipped from |
| `Reassembly.GetRpc` | src/dspaces-server.c:2386-2397 | the object ls_find finds is the piece's put, and the reply holds exactly the values put in the piece |
| `Reassembly.CopyPiece` | src/dspaces-client.c:1404-1408 | copying a reply keeps the earlier pieces and adds its own |
| `Reassembly.GetData` | src/dspaces-client.c:1312-1428 | when the pieces tile the query every cell of the caller's buffer ends up with the value put there |
| `Reassembly.DspacesGet` | src/dspaces-client.c:1312-1428 | get after put: query and reassembly together leave in every cell the value that was put |
| `ServerTree.SubSplit` | src/dspaces-server.c:1697-1700 | a subtree is its root and the disjoint subtrees of its children |
| `ServerTree.IbcastRpcStart` | src/dspaces-server.c:1688-1727 | the sends of one server: to exactly its tree neighbours but the sender, the parent first, then the children; none where the code returns early, and when that is |
| `ServerTree.SendsToNeighbours` | src/dspaces-server.c:1688-1727 | a message goes on to exactly the receiver's tree neighbours other than its sender |
| `ServerTree.CoverSplits` | src/dspaces-server.c:1688-1727 | what a message will reach is its receiver and what it is passed on as will reach, nobody twice |
| `TreeBroadcast.StepInv` | src/dspaces-server.c:1688-1727 | in every step handled and still to be reached ranks together are all ranks, each once |
| `TreeBroadcast.ExactlyOnce` | src/dspaces-server.c:1688-1727 | from every starting rank no server handles a broadcast twice, it ends after at most as many steps as servers, and then all have handled it |
| `TreeBroadcast.NeverStuck` | src/dspaces-server.c:1688-1727 | a broadcast only stops when nothing is in flight |
| `TreeBroadcast.GetVars` | src/dspaces-server.c:3349-3407 | a server answers the names known in the part of the tree the request reaches through it |
| `TreeBroadcast.AllNames` | src/dspaces-server.c:3349-3407 | asked by a client at any server, the union of all servers' names |
| `TreeBroadcast.GetVarObjs` | src/dspaces-server.c:3410-3476 | a server answers its own objects followed by those of that part of the tree, each as often as stored |
| `TreeBroadcast.AllObjects` | src/dspaces-server.c:3410-3476 | asked by a client at any server, the multiset sum of all servers' objects |
| `KillTokens.Server.KillRpc` | src/dspaces-server.c:2649-2692 | a token is ignored at zero, otherwise counted and passed on; at zero the shutdown begins |
| `KillTokens.NeverIgnored` | src/dspaces-server.c:2667-2673 | no token between servers is ignored |
| `KillTokens.ArriveInv` | src/dspaces-server.c:2649-2692 | a child's count stays its parent's count plus the tokens in flight between them |
| `KillTokens.RunInv` | src/dspaces-server.c:2649-2692 | so in every state of every run, for any number of applications |
| `KillTokens.AncestorsFirst` | src/dspaces-server.c:2674-2677 | a server begins to shut down at most once and only after all its ancestors |
| `KillTokens.NothingToTheDead` | src/dspaces-server.c:2649-2692 | no token is in flight to a server below rank 0 that has begun to shut down |
| `KillTokens.QuietMeansEqual` | src/dspaces-server.c:2649-2692 | all counts are equal once nothing is in flight |
| `KillTokens.QuietOutcome` | src/dspaces-server.c:1109-1115 | then all servers have shut down if there were at least as many client tokens as applications, and none otherwise |
| `VersionedStore.Storage.LsAddObj` | src/ss_data.c:987-1012 | storing puts the new object in front and removes the first overlapping object of the name in the bin, the others keeping their order; num_obj stays the total length of the bins |
| `VersionedStore.Storage.LsFind` | src/ss_data.c:1053-1069 | the first object of the bin that has name and version and meets the box, none only if there is none |
| `VersionedStore.Storage.LsFindAll` | src/ss_data.c:1093-1122 | all objects that answer, in the order of the bin and never more than num_obj, and failure exactly when they do not hold every element of the box |
| `VersionedStore.OverlapIsSlot` | src/ss_data.c:1166-1181 | when boxes of a name are equal or apart the object to evict is the one with the same box |
| `VersionedStore.KeepsLastPut` | src/ss_data.c:987-1012 | after any history each name, box and version modulo the number of bins keeps its last put, and nothing else is stored |
| `VersionedStore.VersionWindow` | src/ss_data.c:987-1012 | of a box put in version order exactly the last max_versions versions are stored |
| `VersionedStore.AddedSlots` | src/ss_data.c:1615-1637 | the index bin changes by the same rule as the object bin |
| `VersionedStore.LivePutOnce` | src/ss_data.c:987-1012 | the puts of one object that are not superseded are pairwise apart |
| `VersionedStore.LiveCovers` | src/ss_data.c:987-1012 | while fewer versions than there are bins have followed, they cover what all puts of the object covered |
| `MetaSearch.MetaStore.LsFindMeta` | src/ss_data.c:911-927 | the entry of name and version, none exactly when there is none |
| `MetaSearch.MetaStore.LsAddMeta` | src/ss_data.c:929-947 | a version received before is ignored, any other comes first in its bin |
| `MetaSearch.CloseIsLeast` | src/ss_data.c:1935-1944 | the early break of a bin's scan loses no smaller version |
| `MetaSearch.MetaStore.SeenAll` | src/ss_data.c:1932-1934 | after as many bins as there are every entry has been seen, from whatever version the search starts |
| `MetaSearch.MetaStore.MetaFindNextEntry` | src/ss_data.c:1921-1952 | the least version above curr >= -1, none exactly when there is none |
| `MetaSearch.MetaStore.FindLast` | src/dspaces-server.c:2310-2322 | the loop ends and returns the greatest version |

## Left out

- Network, bulk transfer, compression, MPI, Python modules, remotes, bindings, configuration files and the expression calculator: glue around the core.
- Element bytes: buffers hold opaque elements; both objects of a copy are taken to have elements of the same size.
- Memory: allocation failures and freeing; the reference count of stored objects, which nothing in the repository raises.
- 64-bit overflow of volumes, of sums of bounds and of version numbers converted to `int`: numbers outside the curve code are unbounded.
- The library sort: modelled as the sorted arrangement of the table, which is unique where it is used (`Intervals.SortUnique`).
- CopyDims: the jumps into the nested loops of `matrix_copy` are written as a recursion over the remaining dimensions; the order of the copies is the same.
- IbcastRpcStart: the bookkeeping of handles and outputs of a broadcast is not modelled, only who is sent to.
- GetVars: the replies of neighbours are collected one after the other, as they are waited for; the servers' names do not change meanwhile.
- GetVarObjs: likewise; the objects of the asked name at every server are a given list.
- reg_rpc as a broadcast: it passes its input on with the starter's mark, so a server may handle it more than once; no exactly-once claim is made for it.
- Waiter.Publish: `recv_odsc` holds descriptors, where the code holds pointers into the index; the difference shows only if a needed descriptor is overwritten, which is excluded.
- DhtFindEntryAll: the wait itself is the state between its return with a waiting lookup and `Resume`; timeouts are not implemented in the code either.
- LsAddMeta: lookups that wait for metadata are not woken, since none are modelled.
- MetaFindNextEntry: the search without waiting; a waiting lookup without version is woken by any version of its name. Starts below -1 are excluded, for which the code would index outside its bins.
- DealOut: the rounding up by a floating-point division is taken to be exact.
- ElemCountV1: stated for boxes inside the virtual cube, as the callers pass boxes inside the domain.
- HilbertIncr: one dimension is left out, where the curve is the identity and the code counts the coordinate up; at the last index the code flips coordinate 0, which is stated, but is no point the curve promises.
- Storage.LsFindAll: stated for bins whose objects of one version are apart.
- ElemCount: stated for boxes inside the domain, as the callers pass them.
- DhtAddEntry: stated for a descriptor apart from those of its own object and for waiting lookups that lose nothing to an overwrite; an overlapping put of one version and the overwriting of a needed descriptor are left out. `GetAfterPut.UpdateRpc` derives both conditions for careful runs.
- PutInv: a box that overlaps another of its name in the same bin without being the same is left out; the code then evicts the first overlapping object only.
- GetAfterRun: fewer than ten dimensions, as below ten `matrix_copy` reads the source at the target's coordinates.
- UpdateRpc: the update of a server's own index, which the code makes without a message, is an update in flight like any other.
- Versions: the hash version 0 with a single server appears in `ElemCount` only.
- Client-side storage, subscriptions of clients, asynchronous puts and the drain thread.
