# CPU scheduling and page replacement, modelled in Dafny

This project models two small simulators.

**The CPU scheduling engines.** A `Process` record carries:
- arrival, burst, start and completion times;
- turnaround, response and wait times;
- the remaining burst and the `queued`/`finished` flags.

Each engine owns a copy of the records, updates them in place and returns the sums of the three metrics:
- **FCFS** (first-come-first-served) sorts the records by arrival and runs them one after another.
- **SJF** (non-preemptive shortest-job-first) uses a discrete clock. At each decision the shortest arrived, unfinished job runs to completion. When nothing has arrived, the clock idles one unit.
- **Round-Robin** sorts by arrival, then runs a FIFO ready queue of record indices with a fixed quantum. After each turn it runs an arrival sweep and puts the preempted record back at the tail. When the queue runs empty, it enqueues the first unfinished record after the first.

**The page-replacement fault counters.** FIFO, LRU and OPT (optimal, "otm" in the source) each loop over a reference string. They update a frame of at most `capacity` pages and count the references that miss.

Each engine is a class over an `array<Process>` whose methods change the records in place, with loop invariants. The Round-Robin loop also returns, as a ghost result, the sequence of (records, queue, clock) states it went through, each the engine's turn (`RoundRobin.NextTurn`) from the one before. The page counters are methods with loops over a `seq<Page>` frame. Each of them also returns, as a ghost result, the sequence of frames the loop went through. That trace is tied to a step function, and the properties are proved as lemmas about the trace.

Files:
- `processes.dfy`: the record, the sums, the arrival sort and the permutation lemmas.
- `fcfs.dfy`, `sjf.dfy`, `round_robin.dfy`: the three engines.
- `frames.dfy`: what the page policies share, the fault count and its bounds.
- `fifo.dfy`, `lru.dfy`, `opt.dfy`: the three page policies.

## Model

| member | source | states |
|---|---|---|
| Processes.Scheduled | process-scheduling-algorithms/main.cc:69-74 | the record runs from the given start for its whole burst, tt = ct - at, rt = st - at, wt = tt - bt, and nothing else in it changes |
| Processes.SortByArrival | process-scheduling-algorithms/main.cc:43-49 | afterwards arrival times never decrease along the array, and the array is a permutation of what it held |
| Processes.InsertLast | process-scheduling-algorithms/main.cc:43-49 | one insertion step of the sort: the prefix one longer is sorted by arrival, the records after it are left alone, and the array is a permutation of what it held |
| Processes.JobsPermutation | process-scheduling-algorithms/main.cc:48 | two permutations of each other have the same multiset of (arrival, burst) jobs, so sorting loses and invents no job |
| Processes.TotalsBalance | process-scheduling-algorithms/main.cc:72-78 | when each record's metrics agree with its times, the summed wait time is the summed turnaround time less the total burst |
| Processes.FinishOne | process-scheduling-algorithms/main.cc:193-200 | marking one more record finished adds exactly its metrics to the finished sums and one to the finished count |
| Fcfs.FcfsScheduler.Start | process-scheduling-algorithms/main.cc:61-86 | the records are first put in arrival order as a permutation of the input; each final record is its sorted original with start, completion and metrics set and every other field (rbt, queued, finished) as it was; the records lie on an FCFS timeline, keep the same jobs, and the returned sums are those of all the records |
| Fcfs.FcfsScheduler.RunInListOrder | process-scheduling-algorithms/main.cc:66-79 | every record is its original with only start, completion and metrics set; it starts at its arrival (the first one) or at the later of its arrival and its predecessor's completion, and runs its burst; the sums are those of all records |
| Fcfs.FcfsTimelineFacts | process-scheduling-algorithms/main.cc:66-74 | on an FCFS timeline with non-negative bursts each record starts no earlier than it arrives, rt equals wt, and every record completes before any later one starts |
| Fcfs.FcfsResponseTotalsWait | process-scheduling-algorithms/main.cc:73-78 | on an FCFS timeline the summed response time equals the summed wait time |
| Sjf.SjfScheduler.PickShortest | process-scheduling-algorithms/main.cc:102-120 | the pick is an unfinished, arrived record preferred to every other such record (shorter burst, then earlier arrival, then earlier in the list); no pick means no record is eligible |
| Sjf.SjfScheduler.Step | process-scheduling-algorithms/main.cc:102-141 | with no eligible record the clock advances by exactly one and no record changes; otherwise exactly the picked record becomes finished, starting at the clock with its metrics set, and the clock jumps to its completion |
| Sjf.SjfScheduler.Round | process-scheduling-algorithms/main.cc:101-142 | one loop pass keeps the engine's invariant and either dispatches one more record or lets the clock idle while the idle measure drops |
| Sjf.SjfScheduler.Start | process-scheduling-algorithms/main.cc:95-149 | the loop ends; every record is its original dispatched at its start time; the dispatch order lists every record once and every dispatch obeys the selection and clock rules; the sums are those of all records |
| Sjf.ScheduleExtend | process-scheduling-algorithms/main.cc:127-141 | dispatching one more record by the rules keeps the earlier dispatches valid and extends the schedule |
| Sjf.InvariantAfterDispatch | process-scheduling-algorithms/main.cc:127-141 | a dispatch keeps the loop invariant: the picked record is in the order once, is finished with its metrics, and is added to the sums; the clock is its completion time |
| Sjf.InvariantAfterIdle | process-scheduling-algorithms/main.cc:122-125 | an idle step keeps the loop invariant and strictly decreases the summed distance from the clock to the unfinished arrivals |
| Sjf.GapShrinks | process-scheduling-algorithms/main.cc:122-125 | advancing the clock by one never increases the idle measure, and decreases it while some unfinished record has not arrived |
| Sjf.SjfNoOverlap | process-scheduling-algorithms/main.cc:127-134 | with non-negative bursts, each record in a schedule completes no later than any record dispatched after it starts |
| Sjf.ScanAsWritten | process-scheduling-algorithms/main.cc:104-120 | the scan as written: a pick it makes is an eligible record at or after the scan position; no pick means nothing was picked before and every eligible record has a burst at or above the threshold |
| Sjf.ScanAsWrittenBelowMax | process-scheduling-algorithms/main.cc:104-120 | while every burst is below the largest int, the scan as written obeys the selection rule |
| Sjf.MaxBurstNeverPicked | process-scheduling-algorithms/main.cc:104-125 | a lone record with burst equal to the largest int is eligible from time 0 on, yet the scan as written picks nothing |
| RoundRobin.RrScheduler.RunSlice | process-scheduling-algorithms/main.cc:172-201 | only the head record changes, to what `Slice` gives, with the clock afterwards: while its remaining burst equals its burst it starts at max(clock, arrival) and the clock moves there; if more than a quantum remains it loses a quantum and the clock gains one, otherwise the clock gains the remaining burst and the record finishes then, with rbt 0 and its metrics set |
| RoundRobin.RrScheduler.Dispatch | process-scheduling-algorithms/main.cc:172-201 | the record run is the queue's head and the rest of the queue is what follows it; only that record changes, by `Slice`, and the clock is the one `Slice` gives; the head is added to the finished count and sums exactly when it finished, and the termination measure drops |
| RoundRobin.RrScheduler.UpdateQueue | process-scheduling-algorithms/main.cc:203-234 | the records and the queue end as `EndOfTurn` gives them: the rest of the queue, then the arrivals of the sweep, then the head if it did not finish, refilled when that is empty; the full queue invariant holds again and the summed remaining burst is unchanged |
| RoundRobin.RrScheduler.Requeue | process-scheduling-algorithms/main.cc:203-218 | the records are those of the arrival sweep, and the queue is the rest of the queue, then the arrivals in list order, then the head if it did not finish; records and queue are consistent again |
| RoundRobin.RrScheduler.EnqueueArrivals | process-scheduling-algorithms/main.cc:203-214 | the queue gains `Arrivals`, in list order: exactly the records after the first that are neither queued nor finished and have arrived; the records become `Sweep`'s, in which exactly those are flagged queued |
| RoundRobin.ArrivalsExactly | process-scheduling-algorithms/main.cc:203-214 | the sweep's additions are exactly the arriving records, each once, in increasing index order |
| RoundRobin.RrScheduler.Refill | process-scheduling-algorithms/main.cc:220-234 | the records and queue become `Refilled`'s: a non-empty queue is left alone; an empty one gains the first unfinished record after the first (all before it finished), flagged queued, or stays empty when every record after the first is finished |
| RoundRobin.RrScheduler.Start | process-scheduling-algorithms/main.cc:159-242 | with a positive quantum the loop ends; the returned trace starts from the records in arrival order, a permutation of the input, with only the first queued at clock 0; each step is one `NextTurn` taken while some record is unfinished, and the last state holds the final records, all finished; the records keep their jobs, each has rbt 0 and its metrics, started no earlier than it arrived and completed at least a burst after starting; the sums are those of all records |
| RoundRobin.RrScheduler.RunQueue | process-scheduling-algorithms/main.cc:164-235 | the loop ends, and its ghost trace is a run (`RrRun`): from the given records with the queue [0] at clock 0, each state is `NextTurn` of the one before while some record is unfinished, and at the last state, the final records and clock, every record is finished; the sums are those of the finished records |
| RoundRobin.RrScheduler.Turn | process-scheduling-algorithms/main.cc:171-235 | the records, queue and clock afterwards are `NextTurn` of those before (the head runs one slice, then the sweep, the re-queue and the refill); the loop invariant is kept and the remaining burst plus the number of unfinished records strictly drops |
| RoundRobin.InvariantInitially | process-scheduling-algorithms/main.cc:164-170 | the queue holding only the first record, at clock 0 with nothing finished, satisfies the loop invariant |
| RoundRobin.AfterSlice | process-scheduling-algorithms/main.cc:172-201 | a turn keeps every record consistent, does not move the clock back, adds the head to the finished count and sums if it finished, and strictly decreases the termination measure |
| RoundRobin.SweepQueue | process-scheduling-algorithms/main.cc:203-214 | after the sweep the queue still holds distinct, unfinished, queued records and every such record other than the running one |
| RoundRobin.AfterRequeue | process-scheduling-algorithms/main.cc:216-218 | appending the current record to the tail exactly when it did not finish restores the between-turns queue invariant |
| RoundRobin.AfterRefill | process-scheduling-algorithms/main.cc:220-234 | after the refill the queue invariant holds, and the queue is non-empty whenever some record is unfinished, so taking its head at the top of the loop is defined |
| RoundRobin.AfterRun | process-scheduling-algorithms/main.cc:171-235 | at loop exit every record keeps its job and arrival order, has rbt 0, carries its metrics, started no earlier than it arrived and completed at least a burst after starting |
| Frames.Find | page-replacement-algorithms/main.cc:64 | the index of the first occurrence of the page, or the frame length exactly when the page is absent |
| Frames.Remove | page-replacement-algorithms/main.cc:130 | the result holds exactly the other pages, keeps the list free of repeats, and is one shorter when the page was there once |
| Frames.EraseIsRemove | page-replacement-algorithms/main.cc:128-130 | erasing the found position from a repeat-free frame removes that page |
| Frames.FaultBounds | page-replacement-algorithms/main.cc:59-145 | over any run that holds each reference once made and brings in nothing else, the faults of the first n references lie between the number of distinct pages among them and n |
| Frames.RunFaultBounds | page-replacement-algorithms/main.cc:59-145 | the same bounds over the whole reference string |
| Fifo.FifoStep | page-replacement-algorithms/main.cc:63-73 | the frame then holds the reference and nothing new besides it; a hit leaves it unchanged; capacity and the absence of repeats are kept |
| Fifo.Fifo | page-replacement-algorithms/main.cc:59-77 | the loop goes through a run of the policy from an empty frame, the fault count is the number of references that missed on it, and it lies between the number of distinct pages referenced and the number of references |
| Fifo.FifoKeepsLastMissed | page-replacement-algorithms/main.cc:63-73 | the frame is always the last `capacity` pages that missed, oldest first, so a full frame evicts the page brought in earliest |
| Fifo.FifoReplays | page-replacement-algorithms/main.cc:63-73 | every frame of a run holds the reference just made, brings in nothing else, stays within capacity and holds no page twice |
| Fifo.FifoFaultBounds | page-replacement-algorithms/main.cc:59-77 | frames stay within capacity and repeat-free, and the fault count lies between the number of distinct pages and the number of references |
| Lru.LruStep | page-replacement-algorithms/main.cc:127-141 | the reference ends at the back of the frame and nothing new besides it enters; a hit keeps the same pages; capacity and the absence of repeats are kept |
| Lru.Visit | page-replacement-algorithms/main.cc:128-141 | one reference gives the policy's next frame, reports a fault exactly when the page was absent, and keeps the frame within capacity and repeat-free |
| Lru.Lru | page-replacement-algorithms/main.cc:123-145 | the loop goes through a run of the policy from an empty frame, the fault count is the number of references that missed on it, and it lies between the number of distinct pages referenced and the number of references |
| Lru.Recency | page-replacement-algorithms/main.cc:127-141 | the referenced pages, each once and no others |
| Lru.LastUse | page-replacement-algorithms/main.cc:127-141 | the position of the last reference to a page, with no later reference to it, or -1 exactly when it was never referenced |
| Lru.RecencyByLastUse | page-replacement-algorithms/main.cc:127-141 | the recency list is ordered by the position of each page's last use |
| Lru.LruKeepsMostRecent | page-replacement-algorithms/main.cc:127-141 | the frame is always the `capacity` most recently used pages, least recent first |
| Lru.LruEvictsLeastRecentlyUsed | page-replacement-algorithms/main.cc:136-138 | the frame is ordered by last use, so the front page evicted on a full miss is the least recently used; every referenced page outside the frame was last used before every page in it |
| Lru.LruReplays | page-replacement-algorithms/main.cc:127-141 | every frame holds the reference just made at its back, brings in nothing else, stays within capacity and holds no page twice |
| Lru.LruFaultBounds | page-replacement-algorithms/main.cc:123-145 | frames stay within capacity and repeat-free, and the fault count lies between the number of distinct pages and the number of references |
| Opt.Distance | page-replacement-algorithms/main.cc:99-106 | a finite distance d points at the first use of the page at or after the position; "never" means no later use |
| Opt.NextUse | page-replacement-algorithms/main.cc:99-106 | the forward scan returns the page's distance to its next use |
| Opt.PageDistances | page-replacement-algorithms/main.cc:97-109 | the map's keys are exactly the frame's pages, each mapped to its distance to its next use |
| Opt.FarthestSlot | page-replacement-algorithms/main.cc:97-112 | the slot chosen holds a page whose next use is at least as far ahead as that of every page in the frame |
| Opt.FarthestExists | page-replacement-algorithms/main.cc:111 | every non-empty frame has a slot of greatest distance |
| Opt.Opt | page-replacement-algorithms/main.cc:79-121 | the loop goes through a run of the policy from an empty frame, the fault count is the number of references that missed on it, and it lies between the number of distinct pages referenced and the number of references |
| Opt.OptReplays | page-replacement-algorithms/main.cc:86-117 | every frame of a run holds the reference just made, brings in nothing else, stays within capacity and holds no page twice |
| Opt.OptEvictsFarthest | page-replacement-algorithms/main.cc:97-115 | on a full miss, the new page takes, in place, the slot of a page used again no sooner than any other page in the frame |
| Opt.OptFaultBounds | page-replacement-algorithms/main.cc:79-121 | frames stay within capacity and repeat-free, and the fault count lies between the number of distinct pages and the number of references |

## Left out

- Both `main` functions, `ParseFile` and `parse_input` are not part of this model. They do console and file I/O, argument handling and numeric parsing. Their quirks are not modelled: burst and arrival values carry over from one line to the next, and skipped lines do not advance the page parser's line count. The engines take records as the parser builds them (`Processes.NewProcess`, whose result is `Pending`) as their input.
- The float averages, and the divisions by the process count (a division by zero on an empty list), are left out. The engines return the integer sums.
- The comma decimal separator of the output is left out.
- Integers are unbounded. The source's 32-bit `int` clock and times, and its unsigned page and fault counters, can overflow; the model does not. The source adds up the metrics in `float`, which rounds large sums; the model's sums are exact.
- The heap-allocated schedulers, their virtual dispatch and the queue and deque containers are left out. The ready queue, the frames and the distance map are Dafny values that the methods reassign.
- Processes.SortByArrival: the source's sort is unstable. The model promises only sorted order and a permutation. It does not promise the order of records with equal arrival.
- Fcfs.FcfsScheduler.Start: the source leaves `rbt`, `queued` and `finished` untouched, and the model's contract says the same.
- Sjf.SjfScheduler.PickShortest: this is the corrected scan described under Findings. The scan as written is `Sjf.ScanAsWritten`.
- Sjf.SjfScheduler.Start: requires records as the parser builds them (unfinished, not queued, rbt = bt). Termination of the scan as written is not claimed for bursts equal to the largest int.
- RoundRobin.RrScheduler.Start: requires a positive quantum and non-negative bursts.
  - With a quantum of 0 or less, the source never finishes a record with positive burst.
  - With a negative burst, the clock runs backwards when that record finishes. The clock invariants the proof uses then do not hold.
  - The source does not check either condition.
- Fifo.Fifo, Lru.Lru and Opt.Opt require `capacity >= 1`. With capacity 0, the source pops from an empty deque or dereferences the end of an empty map.
- Opt.FarthestSlot: the source takes the first maximum in the hash map's unspecified iteration order. The model picks any page of greatest distance, nondeterministically, so ties among equally far pages are not resolved as the source resolves them.
- Belady's theorem, that OPT faults no more than any other policy, is not proved. Only the eviction rule is.

## Findings

| source | as written | input that shows it | evidently intended | confidence | as-written member | corrected member |
|---|---|---|---|---|---|---|
| process-scheduling-algorithms/main.cc:104-118 | the scan's threshold starts at the largest `int`, and a record is taken only when its burst is below the threshold, so a record whose burst is the largest `int` is never picked | the single process "0 2147483647": it is eligible at time 0, but every scan finds nothing and the clock idles forever | pick the shortest eligible record whatever its burst, with "no pick yet" accepting any eligible record | not executed | Sjf.MaxBurstNeverPicked | Sjf.SjfScheduler.PickShortest |
