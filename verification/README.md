# Basic components: a verification model

This project models the data structures and protocols of a C library of basic components
and proves properties of them with Dafny. `dafny verify dfyconfig.toml` checks all of it.

Code that changes things in place is modelled by classes and methods with loops; each of
their contracts says that the new state, as a value, is that of a specification function.
What the library promises is then proved about these functions, for all inputs and over
all runs. Concurrent code is modelled as a system of atomic steps under sequential
consistency, and its properties are proved for every schedule.

* **Hash table** (`base/gp_dict.c`). Two tables of chains with incremental migration.
  `DictSpec` and `DictRefinement` hold the tables as values and show that they are a finite
  map; `DictLoad` bounds the load; `DictExact` gives the exact sizes and the work of a call;
  `ScanTheory`, `ScanStatic` and `ScanWords` treat the stateless scan, first for any cursor
  that obeys a few laws and then for the 64-bit arithmetic of the code; `DictIterator` treats
  safe iterators. `HashTable.HashDict` and `SafeIterators.SafeIterator` are the objects. The
  hash is an arbitrary function.
* **Timing wheel** (`base/gp_timer.c`). `TimerWheel` has the five levels as 512 lists and
  the invariant that ties a timer's list to its expiry; `TimerTicks` and `TimerRuns` prove
  conservation and exact firing, `TimerOnce` that a timer is on one list only, `TimerNext`
  the earliest expiry, `TimerDescent` the bound on moves. `TimerBases.TimerBase` is the object.
* **Ring buffer** (`base/gp_ringbuffer.c`). `RingProtocol` is the step system,
  `RingFifo` the order of the values, `RingSolo` how many a call moves, `RingWrap` the
  32-bit cursors that wrap around, `RingStale` a run that fails when one of them is a full
  turn old, `RingOwn` the sizes that the ring's own initialisation computes, `RingCopy` the
  copy loops.
* **Intrusive list** (`base/gp_list.c`), on linked nodes in the heap.
* **Buffer and codec** (`base/gp_buffer.c`, `base/gp_codec.c`): the growable byte buffer,
  message frames, framing under arbitrary chunking, and any bytes at all (`CodecExact`).
* **Connection** (`base/gp_conn.c`): the output stream, graceful shutdown, and the exact
  effect of each event (`ConnectionExact`).
* **Thread pool** (`base/gp_threadpool.c`), as a step system of critical sections, and the
  order and end of its work (`PoolOrder`).
* **Quoted strings** (`test/dict/sds.c`): the printer and the parser, and the written form
  of all lines (`SdsForms`).
* **Configuration tree** (`base/gp_conf.c`, `base/gp_conf_yaml_loader.c`): final values, what
  setting and pruning leave (`ConfigLaws`), the parser's event loop, and what loading a whole
  document means (`YamlDocs`, `YamlMeaning`, `YamlReading`).

## Where the code does not meet a promise

* A repeating timer whose interval is exactly 256 ticks is linked into the list that is
  being walked. A tick fires each due timer once if and only if no such timer has another
  one behind it in the list (`TimerTicks.TickExact`, with an instance in
  `TimerRuns.FullTurnsFireTwice`), and a whole run is exact if and only if this holds at each
  of its ticks (`TimerRuns.SmoothIsExact`).
* A timer that is added with an expiry that is over, as a start with interval 0 may be,
  fires a full turn of the 32-bit clock later: an added timer fires at its expiry if and
  only if this is not over (`TimerRuns.FiresAtExpiry`, with an instance in
  `TimerRuns.LateTimer`).
* `gp_align32pow2` ends without the increment that would give a power of two. The ring with
  the sizes of `init_gp_ring` is first in, first out if and only if its capacity is at most
  one (`RingOwn.OwnRingExact`). With the sizes that `include/gp.h` documents it always is
  (`RingFifo.RingIsFifo`).
* `create_gp_ring` allocates as many slots as the capacity, while the size is the least
  number 2^k - 1 from the capacity up (`RingWords.OnesIsLeast`). Every slot that a run uses
  is allocated if and only if the capacity is itself such a number
  (`RingOwn.OwnSlotsExact`).
* The cursors of the ring have 32 bits. An actor that sleeps on one for a full turn can
  overwrite a value that has not been popped (`RingStale.StaleCursor`); without such a
  cursor the wrap-around does no harm (`RingWrap.WordRingIsFifo`).
* A message whose length field exceeds 65536 is encoded but not decoded; a message makes
  the round trip if and only if the field is in range and its name is registered
  (`CodecFraming.RoundTrip`).
* `encode` copies one byte more than the name and its terminator. The copy stays inside the
  block if and only if the packed message is not empty (`Codec.NameCopyFits`); then the
  packed message overwrites the byte, and else it lands behind the block (`Codec.Encode`).
* The loop of the server in `test/server` goes on when `decode` takes nothing. It ends on a
  buffer if and only if draining it aborts or leaves fewer than 8 bytes
  (`CodecFraming.ServerEndsExactly`, and on frames `CodecFraming.ServerOnFrames`).
* The write handler keeps the result of `write` in an unsigned variable, so a failed write
  empties the output buffer; a direct write on a broken connection drops its message; and so
  does a message handed over when the connection is disconnected, as a queued one may be
  (`ConnectionSpec.LostAfterClose`). The output is conserved if and only if none of the three
  happens (`ConnectionSpec.OutputConserved`).
* A queued shutdown that comes after the connection was closed with output waiting shuts
  the socket down all the same (`ConnectionSpec.ShutsWhenEmpty`, with an instance in
  `ConnectionSpec.LateShutdown`). And a shutdown made at once in the loop, or by the write
  handler, overtakes a message that another thread has queued
  (`ConnectionSpec.ShutsBehindQueue`, with an instance in `ConnectionSpec.Overtaken`).
  Shutdown is graceful if and only if neither happens (`ConnectionSpec.GracefulShutdown`).
* A sequence in a sequence has no node of its own, and an empty text is no item: a document
  is loaded as it is written if and only if it has neither (`YamlMeaning.LoadsWhatIsMeant`).
  An item whose node is there already, as one that a final value lies below, does not take
  the item's text (`YamlReading.ItemsInOrder`).
* `gp_timer_del` leaves `next_timer` as it is, so it is too early exactly when the last timer
  with that expiry is deleted (`TimerNext.DelLeavesNext`).
* A dictionary refuses to grow when doubling its number of entries wraps around
  (`DictRefinement.ExpandRefusesFull`), and refuses to shrink from 2^31 entries on, where
  `dictResize` cuts the number to an int (`DictSpec.ResizeExact`).

## Model

| member | source | states |
|---|---|---|
| Bits.ReverseBits | base/gp_dict.c:858-866 | the loop of `rev`, six masked swaps with halving distance, computes the word `Rev(v0)` |
| Bits.RevBit | base/gp_dict.c:858-866 | bit i of the reversed word is bit 63 - i of the word |
| DictSpec.UsedMeansAhead | base/gp_dict.c:283-290 | while entries are left in the old table there is a non-empty bucket at or after rehashidx, so the assertion in the loop never fails and the search for it stays in the table |
| DictSpec.MoveBucketKeeps | base/gp_dict.c:276-319 | moving a bucket keeps every entry, every entry in the bucket its key selects in its table, and the used counts exact |
| DictSpec.RehashKeeps | base/gp_dict.c:276-319 | dictRehash keeps the invariant and the bag of entries, and reports exactly whether entries are left in the old table |
| DictSpec.StepKeeps | base/gp_dict.c:348-350 | the migration step of ordinary calls changes no entry, and nothing at all while iterators are live |
| DictSpec.NextPowerIsSize | base/gp_dict.c:1058-1068 | a table size is a power of two from 4 up, at least the request if one that fits a signed long exists, and LONG_MAX + 1 else |
| DictSpec.ExpandKeeps | base/gp_dict.c:235-265 | dictExpand keeps the invariant and all entries, accepted or refused |
| DictSpec.ResizeExact | base/gp_dict.c:223-232 | dictResize makes a table if and only if resizing is allowed, no migration goes on, there are fewer than 2^31 entries (the count is cut to an int) and the size to be had is another one |
| DictSpec.ExpandIfNeededKeeps | base/gp_dict.c:1036-1055 | the growth check before an insertion keeps the invariant and all entries |
| DictSpec.FindAtFinds | base/gp_dict.c:566-585 | the one chain that the key selects holds the key's entry if the table holds one at all |
| DictSpec.SearchCorrect | base/gp_dict.c:566-585 | searching the old table and, during a migration, the new one is looking the key up in the finite map of both |
| DictRefinement.ValidFacts | base/gp_dict.c:276-319 | keys are unique over both tables and the used counts add up to the number of entries |
| DictRefinement.FindCorrect | base/gp_dict.c:566-585 | a find, with the migration step it makes, answers as the map does and leaves the map as it is |
| DictRefinement.ExpandRefusesFull | base/gp_dict.c:1036-1055 | growth before an insertion fails exactly when it is due and doubling the entries wraps around |
| DictRefinement.AddRawCorrect | base/gp_dict.c:380-406 | adding succeeds exactly on absent keys (short of a full table), then extends the map; otherwise the map stays as it is |
| DictRefinement.ReplaceCorrect | base/gp_dict.c:413-436 | replacing sets the key in the map and says whether it was new |
| DictRefinement.DeleteCorrect | base/gp_dict.c:454-489 | deleting takes exactly the key out of the map and hands back its value |
| DictRefinement.ApplyRefines | base/gp_dict.c:353-489 | every operation on the two tables is the same operation on a plain finite map, with the same answer |
| DictRefinement.RunRefines | base/gp_dict.c:235-585 | over any sequence of adds, replaces, deletes, finds, expansions, resizes, rehash calls and iterator counts, each of which finds fewer than 2^63 entries, the answers are those of a plain map |
| DictRefinement.RunFromEmpty | base/gp_dict.c:199-219 | ... and so for every sequence that starts with an empty dictionary |
| DictRefinement.ShortRunsSmall | base/gp_dict.c:235-585 | a run finds fewer than 2^63 entries at each operation if entries at the start and operations add up to no more than that |
| DictLoad.RehashAdvances | base/gp_dict.c:276-319 | a call of dictRehash with n >= 1 completes the migration or moves rehashidx on |
| DictLoad.RehashTerminates | base/gp_dict.c:276-319 | as many calls as there are buckets left in the old table complete the migration |
| DictLoad.ApplyKeepsRoom | base/gp_dict.c:1036-1055 | with resizing enabled and no iterator, every operation keeps the room that the remaining migration needs |
| DictLoad.LoadBound | base/gp_dict.c:1036-1055 | in every state of every such run used0 + used1 is at most the size of the newest table |
| DictLoad.LoadBoundFromEmpty | base/gp_dict.c:1036-1055 | ... and so for every such run from an empty dictionary |
| DictExact.SizesArePowers | base/gp_dict.c:1058-1068 | the table sizes are exactly the powers of two from 2^2 to 2^63 |
| DictExact.NextPowerIsLeast | base/gp_dict.c:1058-1068 | a table is made with the least size that holds the request, or with 2^63 if none does |
| DictExact.ExpandExact | base/gp_dict.c:235-265 | dictExpand makes a table if and only if no migration goes on, the entries fit the request and the least size for it is another one; the table is empty and of exactly that size, and a migration to it begins at the first bucket |
| DictExact.DueExactly | base/gp_dict.c:1036-1055 | growth is due with as many entries as buckets while resizing is allowed, and with six times as many in any case |
| DictExact.GrowthDoubles | base/gp_dict.c:1036-1055 | a table with exactly as many entries as buckets is doubled before an insertion if resizing is allowed, and left as it is if not |
| DictExact.GrowthExact | base/gp_dict.c:1036-1055 | growth that is due makes the least table for twice the entries |
| DictExact.FirstTable | base/gp_dict.c:1036-1055 | the first insertion makes a table of four buckets |
| DictExact.RehashWork | base/gp_dict.c:276-319 | dictRehash(n) moves exactly n buckets that hold entries, unless it passes over 10 * n empty ones first or comes to the end of the old table; the buckets behind stay as they were |
| DictExact.OperationMigrates | base/gp_dict.c:348-350 | an ordinary operation during a migration moves on by at most ten buckets of which at most one holds entries, always by one at least, and by none while an iterator is live |
| DictExact.AddsAtHead | base/gp_dict.c:380-406 | a new entry goes to the head of the chain its key selects in the newest table, and nothing else changes behind the migration step and the growth |
| ScanTheory.ScanNext | base/gp_dict.c:952-1031 | a call returns the cursor just past the bucket of the smaller table, whatever both tables are |
| ScanTheory.ScanCovers | base/gp_dict.c:952-1031 | one call emits every entry of either table whose reversed hash lies between the old and the new cursor |
| ScanTheory.ScanComplete | base/gp_dict.c:952-1031 | with any law-abiding cursor, a key that is present at every call of a full scan is emitted by one of them |
| ScanStatic.ScanCounts | base/gp_dict.c:952-1031 | one call from the start of a bucket emits exactly the entries between the two cursors, each once |
| ScanStatic.ScanRestCounts | base/gp_dict.c:952-1031 | from any cursor on, a scan of unchanging tables emits exactly what lies behind it, each entry once |
| ScanStatic.StaticScan | base/gp_dict.c:952-1031 | a full scan of unchanging tables is a permutation of their entries and takes as many calls as the smaller table has buckets |
| ScanWords.WordsBucket | base/gp_dict.c:952-1031 | a word shares the cursor's bucket exactly when its reversed value lies between the cursor and the next one |
| ScanWords.WordsInner | base/gp_dict.c:1010-1026 | a turn of the inner loop stays in the small bucket while bits between the masks are left and ends exactly where it ends |
| ScanWords.WordCursorLawful | base/gp_dict.c:952-1031 | the 64-bit arithmetic of the cursor (set the bits above the mask, reverse, increment, reverse) obeys all the laws the scan theory asks for |
| ScanWords.DictScanComplete | base/gp_dict.c:952-1031 | from cursor 0 until 0 comes back, every key present at each call is emitted, whatever additions, deletions, expansions, shrinkings and rehash steps happen in between |
| ScanWords.DictScanStatic | base/gp_dict.c:952-1031 | on a dictionary at rest the scan takes one call per bucket of the smaller live table and emits every entry of both tables exactly once |
| HashTable.HashDict.constructor | base/gp_dict.c:199-219 | a new dictionary is the empty one |
| HashTable.HashDict.Expand | base/gp_dict.c:235-265 | allocates and installs a table as the model says, or refuses |
| HashTable.HashDict.MoveBucket | base/gp_dict.c:294-310 | relinks one chain into the new arrays entry by entry; the new tables are those of the model |
| HashTable.HashDict.Rehash | base/gp_dict.c:276-319 | the loop over buckets with its bound on empty visits and its final swap of tables is `Rehash` of the model |
| HashTable.HashDict.RehashStep | base/gp_dict.c:348-350 | one bucket, and none while an iterator is live |
| HashTable.HashDict.Find | base/gp_dict.c:566-585 | the walk along at most two chains is `Find` of the model |
| HashTable.HashDict.ExpandIfNeeded | base/gp_dict.c:1036-1055 | creates, doubles or leaves the table as the model says |
| HashTable.HashDict.Resize | base/gp_dict.c:223-232 | shrinks to the number of entries as an int, and not below 4 |
| HashTable.HashDict.KeyIndex | base/gp_dict.c:1077-1100 | the bucket for a new key in the table that takes new entries, or the entry that is there |
| HashTable.HashDict.AddRaw | base/gp_dict.c:380-406 | entry at the head of its chain in the newest table, or the existing value |
| HashTable.HashDict.Replace | base/gp_dict.c:413-436 | adds, or overwrites the value in place |
| HashTable.HashDict.Delete | base/gp_dict.c:454-489 | unlinks the entry from its chain in either table and counts it out |
| HashTable.HashDict.Scan | base/gp_dict.c:952-1031 | the emitted entries, in order, and the returned cursor are those of the model for both the one-table and the two-table case |
| DictIterator.EventIsQuiet | base/gp_dict.c:348-350 | while the iterator is live, no permitted operation makes it pass over or revisit an entry that stays |
| DictIterator.FetchMovesPast | base/gp_dict.c:652-685 | one dictNext returns the entry to come and from then on counts exactly it as visited |
| DictIterator.SafeIteration | base/gp_dict.c:632-696 | every key that stays from the first dictNext to the end is returned exactly once, across both tables, under lookups, insertions (with expansions), overwrites and removals of the entry just returned |
| SafeIterators.SafeIterator.Next | base/gp_dict.c:652-685 | the loop over chains and tables with its saved next entry is `Next` of the model |
| TimerWheel.PutFits | base/gp_timer.c:124-158 | a timer is linked into a list whose level's window holds its expiry and whose slot the expiry selects |
| TimerWheel.WithinUnit | base/gp_timer.c:245-277 | the timers of a list that is cascaded expire within its unit, so each belongs to a strictly lower level |
| TimerWheel.CascadeKeeps | base/gp_timer.c:245-253 | a cascade keeps the wheel well-formed and the bag of pending timers |
| TimerWheel.CascadeFromKeeps | base/gp_timer.c:259-275 | the chain of cascades at a rollover keeps all timers and empties every list whose unit begins |
| TimerWheel.TickFires | base/gp_timer.c:259-277 | after the cascades the current list of tv1 holds only timers due now and all others fit the next tick |
| TimerTicks.TickConserves | base/gp_timer.c:255-294 | a tick loses no timer and makes none up: pending after plus fired is pending before plus re-armed |
| TimerTicks.DueExactly | base/gp_timer.c:255-279 | the list that a tick walks holds exactly the pending timers that expire now |
| TimerTicks.FireExact | base/gp_timer.c:279-292 | the walk visits each due timer once, in order, unless a timer with an interval of 256 is re-linked behind it; then it makes more visits than there are timers |
| TimerTicks.TickExact | base/gp_timer.c:255-294 | a tick fires every due timer exactly once and no other if and only if no due timer with an interval of exactly 256 has another behind it |
| TimerRuns.AddKeeps | base/gp_timer.c:124-164 | adding keeps the wheel well-formed, replaces a timer of the same id and adds one, which stands for the tick a full turn of the clock later if its expiry is over |
| TimerRuns.TickOnTimer | base/gp_timer.c:255-294 | one tick fires a given timer if it is due, then re-arms or drops it, and else leaves it pending |
| TimerRuns.ExactFiring | base/gp_timer.c:124-294 | over any run of operations on other timers, in which no tick walks a timer with an interval of 256 in front of another one, the firings of a timer are exactly its schedule up to the time reached |
| TimerRuns.AddedFiresOnTime | base/gp_timer.c:124-294 | in such a run an added timer fires at e, or at e, e + i, e + 2i and so on, at all these ticks reached and no other, where e is its expiry or, if that is over, the tick 2^32 later |
| TimerRuns.FiresAtExpiry | base/gp_timer.c:124-294 | in a run that reaches the expiry of an added timer the timer fires at that tick if and only if it was not over when the timer was added |
| TimerRuns.LateTimer | base/gp_timer.c:124-164 | a one-shot timer added at tick 1 for tick 0 fires at no tick before 2^32, and then |
| TimerRuns.ScheduleAt | base/gp_timer.c:283-287 | the schedule spelled out: its j-th tick is e + j * i, and a one-shot timer has one |
| TimerRuns.SmoothIsExact | base/gp_timer.c:124-294 | all ticks of a run fire each due timer once and no other if and only if no tick of the run walks a timer with an interval of 256 in front of another one |
| TimerRuns.NoTurnsSmooth | base/gp_timer.c:124-294 | ... and so in every run without timers of that interval |
| TimerRuns.FullTurnsFireTwice | base/gp_timer.c:279-292 | two timers with interval 256 due at one tick: the tick does not fire each of them once |
| TimerOnce.OnceIsOnePlace | base/gp_timer.c:124-169 | no pending timer is counted twice if and only if no two places of the 512 lists hold a timer of the same id |
| TimerOnce.ApplyOnePlace | base/gp_timer.c:124-294 | adding, changing, deleting and all ticks, with their cascades, firings and re-arming, keep every pending timer at one place of one list |
| TimerOnce.RunOnePlace | base/gp_timer.c:124-294 | ... and so every run of operations |
| TimerNext.NextTimerIsEarliest | base/gp_timer.c:67-122 | on every well-formed wheel gp_next_timer returns the least expiry over all five levels, MAX_TVAL if there is none |
| TimerNext.AddKeepsNext | base/gp_timer.c:124-164 | after an add the field next_timer is the earliest expiry |
| TimerNext.TickKeepsNext | base/gp_timer.c:255-294 | a tick that finds next_timer at the earliest expiry leaves it there |
| TimerNext.DelLeavesNext | base/gp_timer.c:166-169 | a deletion leaves next_timer as it is: never too late, and still the earliest expiry if and only if a timer with that expiry is left or the field says that there is none |
| TimerDescent.CascadeDescends | base/gp_timer.c:245-253 | each move of a timer by a cascade lowers its level by at least one |
| TimerDescent.TickDescends | base/gp_timer.c:255-294 | a tick moves a timer no more often than the number of levels it falls, whether it is pending, due, about to be linked or gone |
| TimerDescent.MovedAtMostFourTimes | base/gp_timer.c:245-294 | over any run of operations on other timers, an added timer is moved before it fires at most as often as the level it was linked at, and for every expiry it has in the run at most four times, the cascades of the very tick at which it fires included |
| TimerBases.TimerBase.constructor | base/gp_timer.c:191-206 | an empty wheel, well-formed, with no timer at two places and next_timer at MAX_TVAL |
| TimerBases.TimerBase.GpNextTimer | base/gp_timer.c:67-122 | the search over the slots of tv1 and then level by level is `NextTimer` of the model |
| TimerBases.TimerBase.InternalAdd | base/gp_timer.c:124-158 | the timer goes to the end of the list that its distance, wrapped around below zero, selects, and next_timer is searched again |
| TimerBases.TimerBase.Del | base/gp_timer.c:166-169 | the timer is looked for and leaves the list it is on, if it is on one; the wheel stays valid |
| TimerBases.TimerBase.Add | base/gp_timer.c:160-164 | delete and link; no timer is at two places afterwards either, and the wheel stays valid |
| TimerBases.TimerBase.Mod | base/gp_timer.c:171-178 | delete, change, add; likewise |
| TimerBases.TimerBase.Cascade | base/gp_timer.c:245-253 | the removing walk over one list is `Cascade` of the model |
| TimerBases.TimerBase.Fire | base/gp_timer.c:279-292 | the walk with its saved next timer is `Fire` of the model, and it ends |
| TimerBases.TimerBase.CascadeLevels | base/gp_timer.c:259-275 | the nested tests of the slot indices cascade the levels that the model does |
| TimerBases.TimerBase.RunTimers | base/gp_timer.c:255-294 | ticks up to the given time, with the firings in order, from a valid wheel to a valid wheel |
| RingWords.AndIsRemainder | base/gp_ringbuffer.c:60-60 | masking with a power of two less one is the remainder |
| RingWords.AndOfWords | base/gp_ringbuffer.c:60-60 | the machine's `&` on words is the bitwise and on numbers that the cursors use |
| RingWords.Align32Pow2 | base/gp_ringbuffer.c:6-17 | the rounding gives a word of ones as long as its argument less one: it lacks the final increment |
| RingWords.OnesNotPower | base/gp_ringbuffer.c:6-32 | such a size is a power of two only for a capacity of one |
| RingWords.OnesIsLeast | base/gp_ringbuffer.c:6-17 | the rounded size is the least number 2^k - 1 from the capacity up |
| RingProtocol.StepKeepsOrder | base/gp_ringbuffer.c:42-93 | every step of any actor keeps the four cursors ordered within the capacity, the reservations disjoint and gap-free, and the stale reads harmless |
| RingProtocol.RunKeepsOrder | base/gp_ringbuffer.c:34-159 | tail.second <= tail.first <= head.second <= head.first <= tail.second + capacity in every state of every interleaving, for a ring of any size, the cursors being numbers |
| RingFifo.IndexIsRemainder | base/gp_ringbuffer.c:60-82 | the slot of the i-th value, straight on or around the end, is its cursor modulo the size |
| RingFifo.RingIsFifo | base/gp_ringbuffer.c:34-159 | in every interleaving of any pushes and pops on a documented ring, what pops have taken in reservation order is what pushes reserved in theirs, and every value copied by an unfinished pop is already the right one |
| RingFifo.RefusedOnlyWhenFull | base/gp_ringbuffer.c:44-55 | a push returns 0 for a positive request only when the ring is full at that read, a pop only when no committed value is left unreserved |
| RingSolo.PushAmount | base/gp_ringbuffer.c:42-53 | a push that has read both cursors goes on with all its values or with exactly as many as fill the ring, and returns 0 exactly when it has none or found no room |
| RingSolo.PopAmount | base/gp_ringbuffer.c:107-118 | a pop goes on with all it asks for or with exactly the committed values, and returns 0 exactly when it asks for none or found none |
| RingSolo.ReservesBatch | base/gp_ringbuffer.c:42-58 | a compare-and-swap that succeeds reserves the first n values of the batch, one that fails starts over, and nothing else reserves |
| RingSolo.UndisturbedPush | base/gp_ringbuffer.c:34-96 | a push that is not disturbed reserves and commits exactly the first min(max, free) values, in n + 4 steps, and changes nothing else but their slots |
| RingSolo.UndisturbedPop | base/gp_ringbuffer.c:99-159 | a pop that is not disturbed takes exactly min(max, committed) values and changes nothing else |
| RingSolo.PopsOldest | base/gp_ringbuffer.c:99-159 | after any run on a documented ring these are the oldest committed values, in order |
| RingFifo.SomeoneIsNext | base/gp_ringbuffer.c:87-93 | while reservations are uncommitted, some actor's commit is not held up by another |
| RingOwn.SameValueTwice | base/gp_ringbuffer.c:27-32 | with the sizes of init_gp_ring and a capacity of at least two, pushing two values and popping twice takes the first one twice |
| RingOwn.OwnRingExact | base/gp_ringbuffer.c:6-32 | with these sizes every run is first in, first out if and only if the capacity is at most one |
| RingOwn.OwnSlotsExact | base/gp_ringbuffer.c:19-32 | create_gp_ring allocates as many slots as the capacity; all slots that a run uses are among them if and only if the rounding leaves the capacity as it is |
| RingWrap.StepAgrees | base/gp_ringbuffer.c:34-159 | one step on 32-bit cursors is the step on numbers, unless the actor uses a cursor that is a full turn of 2^32 old |
| RingWrap.RunAgrees | base/gp_ringbuffer.c:34-159 | ... and so is every run in which no actor does that, however often the cursors wrap around |
| RingWrap.WordRingIsFifo | base/gp_ringbuffer.c:34-159 | with 32-bit cursors what pops have taken is the beginning of what pushes have reserved, and the cursors' differences as words keep their order within the capacity |
| RingStale.StaleCursor | base/gp_ringbuffer.c:42-93 | a run on a documented ring in which a pusher sleeps on head.first for a full turn of 2^32, its compare-and-swap succeeds on a full ring, and a pop takes its value out of order |
| RingCopy.CopyIn | base/gp_ringbuffer.c:59-82 | the unrolled loop with its fall-through rest, or the two loops around the end, put value j into the slot of cursor head + j and touch no other slot |
| RingCopy.CopyOut | base/gp_ringbuffer.c:124-147 | likewise value j of a pop comes from the slot of cursor tail + j |
| IntrusiveList.List.constructor | base/gp_list.c:7-12 | an empty ring |
| IntrusiveList.List.First | base/gp_list.c:14-22 | the first item, none of an empty list |
| IntrusiveList.List.Last | base/gp_list.c:24-32 | the last item, none of an empty list |
| IntrusiveList.List.Next | base/gp_list.c:88-104 | the item after one; nothing after the last, after nothing and after an unlinked item |
| IntrusiveList.List.Prev | base/gp_list.c:106-114 | the item before one; nothing before the first |
| IntrusiveList.List.Walks | base/gp_list.c:14-114 | walking on from the first item gives the sequence of items, walking back from the last its reverse |
| IntrusiveList.List.Append | base/gp_list.c:34-44 | the ring with the item behind the others |
| IntrusiveList.List.Prepend | base/gp_list.c:47-58 | the ring with the item before the others |
| IntrusiveList.List.InsertBefore | base/gp_list.c:60-72 | the ring with the item just before the given one |
| IntrusiveList.List.InsertAfter | base/gp_list.c:74-86 | the ring with the item just after the given one |
| IntrusiveList.List.Remove | base/gp_list.c:116-124 | the ring without the item, which is unlinked |
| IntrusiveList.List.NodeRemove | base/gp_list.c:156-164 | the same for a linked node; an unlinked one changes nothing |
| IntrusiveList.List.RemoveEach | include/gp.h:690-691 | the safe walk that removes each item visits all of them in order, once, and empties the list |
| GrowableBuffer.Int32OfBe32 | base/gp_buffer.c:178-187 | reading four big-endian bytes gives back the number, negative ones included |
| GrowableBuffer.Buffer.constructor | base/gp_buffer.c:8-14 | an empty buffer with 8 bytes in front |
| GrowableBuffer.Buffer.Retrieve | base/gp_buffer.c:60-70 | takes n unread bytes, or resets the indices when there are no more than n |
| GrowableBuffer.Buffer.MakeSpace | base/gp_buffer.c:85-97 | growing the array or moving the bytes to the front leaves the unread bytes as they are and makes room |
| GrowableBuffer.Buffer.Append | base/gp_buffer.c:107-112 | the unread bytes are the old ones followed by the new, wherever they have to move |
| GrowableBuffer.Buffer.ReadFd | base/gp_buffer.c:114-143 | what a read delivers to the free space and the extra space is appended; a failed read changes nothing |
| GrowableBuffer.Buffer.PeekInt32 | base/gp_buffer.c:178-187 | the next number, or an abort with fewer than four bytes |
| GrowableBuffer.Buffer.ReadInt32 | base/gp_buffer.c:218-224 | the next number is taken |
| GrowableBuffer.Buffer.ReadBytes | base/gp_buffer.c:155-256 | the next n bytes are taken, or an abort when n is negative or more than is there |
| Codec.Encode | base/gp_codec.c:57-81 | the array put together piece by piece is the frame of the message; the byte behind it stays as it is if and only if the packed message has a byte that overwrites the extra one copied with the name, or the two bytes are equal |
| Codec.NameCopyFits | base/gp_codec.c:62-76 | the copy of the name, with the byte behind its terminator, is inside the block if and only if the packed message is not empty |
| Codec.DecodeBuffer | base/gp_codec.c:83-119 | result and unread bytes afterwards for every outcome: wrong magic, length out of range, incomplete, abort, unregistered name, failed and successful unpacking |
| CodecFraming.FrameDecodes | base/gp_codec.c:57-119 | a frame followed by anything decodes to its message and the rest, or drops the buffer if its length is over 65536 or its name unknown |
| CodecFraming.RoundTrip | base/gp_codec.c:57-119 | a message comes back from its frame if and only if its length field is at most 65536 and its name is registered |
| CodecFraming.PartialStays | base/gp_codec.c:98-117 | an incomplete frame leaves the buffer unchanged |
| CodecFraming.Receive | base/gp_codec.c:83-119 | appending a chunk and decoding while 8 bytes are readable and something is taken is `Drain` of the model |
| CodecFraming.DrainFrames | base/gp_codec.c:57-119 | draining any beginning of a row of frames gives exactly the complete ones and keeps the rest |
| CodecFraming.FramingRoundTrip | base/gp_codec.c:57-119 | any list of messages, encoded in a row and cut into chunks anywhere, is decoded to exactly that list with nothing left over |
| CodecFraming.ServerEndsExactly | test/server/guish_server.c:50-66 | the server's loop, which goes on when nothing is taken, ends on a buffer if and only if draining it aborts or leaves fewer than 8 bytes |
| CodecFraming.ServerOnFrames | test/server/guish_server.c:50-66 | on the beginning of a row of frames the server's loop ends if and only if fewer than 8 bytes of the incomplete frame are there |
| CodecExact.EveryHeader | base/gp_codec.c:83-97 | any eight bytes are a 32-bit number, equal to the magic number exactly if the bytes are its bytes, and a 32-bit length |
| CodecExact.BadMagic | base/gp_codec.c:83-92 | bytes that do not start with the magic number are all dropped |
| CodecExact.LengthField | base/gp_codec.c:94-102 | behind the magic number a length below 0 or above 65536 drops all bytes, one with fewer bytes behind it leaves all, and else the frame is taken apart |
| CodecExact.NameField | base/gp_codec.c:104-119 | what becomes of a complete frame by the length of its name, its name and its body, byte by byte |
| CodecExact.CStringIs | base/gp_codec.c:104-105 | the name is all bytes before the first NUL |
| CodecExact.AbortsExactly | base/gp_codec.c:83-119 | decode aborts exactly on a complete frame without room for the length of the name, with that length out of range, or with a registered name that is longer than the frame |
| ConnectionSpec.StepInterested | base/gp_conn.c:26-189 | until the connection is closed, write interest is on exactly when output waits, whatever the event |
| ConnectionSpec.StepConserves | base/gp_conn.c:26-128 | each event keeps bytes sent plus bytes waiting equal to bytes given, or is one of the three that drop bytes, and then they are lost for good |
| ConnectionSpec.OutputConserved | base/gp_conn.c:26-128 | over every run, sent bytes followed by the output buffer are all bytes given to conn_send_in_loop, in order, if and only if no event of the run dropped any |
| ConnectionSpec.ShutsWhenEmpty | base/gp_conn.c:38-44 | an event shuts the socket down with output waiting exactly when it is a shutdown task that comes after a close |
| ConnectionSpec.GracefulShutdown | base/gp_conn.c:151-170 | over every run, every shutdown finds the output buffer empty if and only if the run has no such late task, and finds no message still queued if and only if no shutdown overtakes one; when nothing was dropped the first is also exactly when every shutdown finds all bytes given so far taken by the socket |
| ConnectionSpec.RunShutEmpty | base/gp_conn.c:151-170 | from any state whose write interest agrees with its output on, every shutdown finds the buffer empty if and only if every earlier one did and no late task is run |
| ConnectionSpec.LateShutdown | base/gp_conn.c:151-158 | a run in which the socket is shut down with a byte still waiting |
| ConnectionSpec.ShutsBehindQueue | base/gp_conn.c:26-47 | an event shuts the socket down with a message queued exactly when it is a shutdown made at once in the loop, or by the write handler, while one is queued; a queued shutdown never does |
| ConnectionSpec.RunShutLast | base/gp_conn.c:136-170 | from any state with no message behind a queued shutdown on, every shutdown finds no message queued if and only if every earlier one did and none overtakes one |
| ConnectionSpec.Overtaken | base/gp_conn.c:136-170 | a run in which a queued message is written after the socket was shut down |
| ConnectionExact.ShutsExactly | base/gp_conn.c:26-47 | in every state, the socket is shut down exactly by a shutdown in the loop with nothing waiting, a queued one run then or after the close, and the write that empties the buffer of a disconnecting connection or fails on it |
| ConnectionExact.ClosesExactly | base/gp_conn.c:8-19 | a connection is closed exactly by the peer, by a forced close that is run, and by its destruction while connected, and stays closed |
| ConnectionExact.PhasesExactly | base/gp_conn.c:69-189 | the other changes of state: established, and disconnecting from connected only |
| ConnectionExact.WritesExactly | base/gp_conn.c:26-128 | exactly the bytes that the socket accepts of what waits, or of a message when nothing does, are written |
| ConnectionExact.QueuesExactly | base/gp_conn.c:136-189 | what each event does to the queue of tasks |
| ConnectionExact.StepAccepts | base/gp_conn.c:136-149 | each event adds to the bytes queued or given exactly those that conn_send accepts, in order unless a message in the loop overtakes a queued one |
| ConnectionExact.RunAccepts | base/gp_conn.c:136-149 | over every run the bytes accepted by conn_send are those given to conn_send_in_loop and those still queued |
| ConnectionExact.RunInOrder | base/gp_conn.c:136-149 | ... in the order of their acceptance, if no message is sent in the loop while another one is queued |
| ConnectionExact.ForcedCloses | base/gp_conn.c:172-189 | a forced close closes the connection when the queue is run, whatever else is in it |
| ConnectionExact.IdleShuts | base/gp_conn.c:151-170 | a connection with nothing waiting and nothing queued is shut down once, at once or when the queue is run |
| ConnectionSpec.LostAfterClose | base/gp_conn.c:87-94 | a run in which a message queued from another thread is lost because the peer closes first |
| Connections.Connection.constructor | base/gp_conn.c:202-225 | a new connection, connecting and with nothing waiting |
| Connections.Connection.SendInLoop | base/gp_conn.c:87-128 | nothing but the loss of the message when disconnected, else direct write, buffering of the rest, or dropping on a broken connection, as in the model |
| Connections.Connection.HandlerWrite | base/gp_conn.c:26-47 | takes what the socket accepted out of the buffer, turns write interest off and shuts down when the model does; a failed write counts as a very large one |
| Connections.Connection.HandlerClose | base/gp_conn.c:8-19 | disconnected, with no interest |
| Connections.Connection.Established | base/gp_conn.c:69-75 | connected |
| Connections.Connection.Destroyed | base/gp_conn.c:77-85 | closes a connected connection |
| Connections.Connection.Send | base/gp_conn.c:136-149 | sends at once in the loop's thread, queues from another one, ignores unless connected |
| Connections.Connection.Shutdown | base/gp_conn.c:160-170 | from connected to disconnecting, with the shutdown done or queued |
| Connections.Connection.RunInLoopShutdown | base/gp_conn.c:151-158 | shuts the socket down unless write interest is on |
| Connections.Connection.ForceClose | base/gp_conn.c:180-189 | queues the close |
| Connections.Connection.RunPending | base/gp_loop.c:116-135 | the first queued function is called, as in the model |
| ThreadPool.StepKeeps | base/gp_threadpool.c:3-143 | every step of workers, submitters and destroyers keeps the invariant of the protocol |
| ThreadPool.PoolProtocol | base/gp_threadpool.c:3-143 | in every reachable state task_busy is the number of submissions not yet finished, callbacks run at most once per submission, queued work has a worker that is neither asleep nor gone, and a destroyer is past its wait only when its job is neither queued nor running, blocked only when it is |
| ThreadPool.IdleIsQuiet | base/gp_threadpool.c:115-126 | task_busy is zero exactly when nothing is queued, on its way to the queue, running or being counted as finished |
| ThreadPool.ExitsWhenStopped | base/gp_threadpool.c:30-40 | a worker leaves only by a look that finds tp_run at 0 and the queue empty |
| ThreadPool.AllDoneAtExit | base/gp_threadpool.c:73-93 | when all workers have left, the queue is empty and everything that had been queued is finished |
| PoolOrder.BegunInOrder | base/gp_threadpool.c:3-40 | over every run the tasks begun, followed by those still queued, are those queued at the start and meanwhile: first in, first out |
| PoolOrder.LooksExactly | base/gp_threadpool.c:9-36 | a worker that looks begins a task exactly when one is queued, and else waits while the pool runs and leaves when it is stopped |
| PoolOrder.StoppedAwake | base/gp_threadpool.c:73-93 | in every state of every run, no worker of a stopped pool sleeps |
| PoolOrder.StopEnds | base/gp_threadpool.c:9-40 | in a stopped pool each step of a worker is exactly one step nearer to the end, where the queue is empty and all have left |
| Sds.CatRepr | test/dict/sds.c:847-870 | the loop appends exactly the quoted form |
| Sds.GetToken | test/dict/sds.c:936-1010 | the loop with its quote flags reads one token, and fails, exactly as `Parse` does |
| Sds.SplitArgs | test/dict/sds.c:922-1030 | all tokens of a line, or nothing on unbalanced quotes or a closing quote that is not followed by a space |
| Sds.ParseEscape | test/dict/sds.c:847-976 | the parser takes the escape of any of the 256 bytes as that byte, whatever follows |
| Sds.QuoteParseInverse | test/dict/sds.c:847-1030 | splitting the quoted forms of any byte strings, joined by spaces, gives back the list of strings |
| Sds.LineIsCString | test/dict/sds.c:847-870 | that line has no NUL in it, whatever the strings hold |
| SdsForms.SplitReads | test/dict/sds.c:922-1030 | a row of words, double-quoted texts of raw bytes, escapes and hexadecimal bytes in either case, single-quoted texts and words that end in a quoted text is split into exactly its tokens, and a quoted part that is not closed or is followed by a non-blank makes the parser fail |
| SdsForms.EveryLineIsARow | test/dict/sds.c:922-1030 | every line is such a row, or goes wrong at a quote |
| SdsForms.SplitExactly | test/dict/sds.c:922-1030 | so the parser fails if and only if a quoted part is not closed or its closing quote is followed by a non-blank, and gives the row's tokens on every other line |
| SdsForms.ReprIsPrintable | test/dict/sds.c:847-870 | a quoted form is printable, whatever the string holds |
| SdsForms.PlainPrintsItself | test/dict/sds.c:847-870 | a string is printed as it is if and only if all its bytes are printable and none is a quote or a backslash |
| ConfigTree.SetPreserves | base/gp_conf.c:69-107 | setting a value keeps sibling names unique and every other final value |
| ConfigTree.SetFinalHolds | base/gp_conf.c:275-289 | after gp_conf_set_final the node at the name is final and has the value |
| ConfigTree.PrunePreserves | base/gp_conf.c:785-808 | pruning a node that is not final keeps every final value below it |
| ConfigTree.SetThenGet | base/gp_conf.c:220-301 | gp_conf_set succeeds if and only if the name is short enough and not final; then the value reads back, and otherwise what was there stays |
| ConfigLaws.SetLeavesOthers | base/gp_conf.c:69-107 | setting a value at a path leaves every node that is not on the way to it as it was, with all below it; the nodes on the way keep their own fields, and new ones have no value |
| ConfigLaws.SetLeavesOtherNames | base/gp_conf.c:220-301 | every other name reads as before; one that was not there reads as a node without a value exactly if the name set lies below it |
| ConfigLaws.SetKeepsOrder | base/gp_conf.c:69-107 | the children stay in order, a new one behind them |
| ConfigLaws.PruneExact | base/gp_conf.c:785-808 | pruning leaves below a node exactly the final nodes, with all that is below them, and the nodes that lead to one, without their values |
| ConfigLaws.PartsHaveNoDots | base/gp_conf.c:69-107 | a name is split at all its dots |
| ConfigLaws.LookupIsFirst | base/gp_conf.c:673-687 | a lookup gives the first child of the name, and none only if there is none |
| YamlSpec.KeyKept | base/gp_conf_yaml_loader.c:224-261 | a key prunes what it overrides and keeps every final value |
| YamlSpec.MoveToEndKept | base/gp_conf_yaml_loader.c:185-212 | moving a sequence item to the end, or adding it, keeps every final value |
| YamlSpec.IncludeKept | base/gp_conf_yaml_loader.c:91-130 | including a file, at the parent or at the current node, keeps every final value and unique names, whether the file is missing, fails half-way or is parsed to its end |
| YamlSpec.LoopKept | base/gp_conf_yaml_loader.c:141-340 | from any state of the event loop on, every final value of the parent is kept |
| YamlSpec.ParsePreserves | base/gp_conf_yaml_loader.c:141-340 | parsing any list of events, with the files they include, below any node keeps every final value, unique names and every child, also when it fails half-way |
| YamlSpec.FinalValueWins | base/gp_conf.c:220-301 | once gp_conf_set_final succeeds the name reads as that value after any sequence of settings and event streams, includes and failures among them, without a new final value for the name |
| YamlSpec.NamesUnique | base/gp_conf.c:69-107 | sibling names stay unique in every tree built by these operations |
| YamlDocs.StreamRead | base/gp_conf_yaml_loader.c:141-340 | the events of any printed document, with all its files, do to a node what the document says, and fail exactly when it is nested deeper than the limit |
| YamlMeaning.LoadsWhatIsMeant | base/gp_conf_yaml_loader.c:141-340 | a document loaded at an empty root gives exactly the tree that it means (keys and texts, items 0, 1, 2 and so on, files in the place where they are included) if and only if no item of a sequence is an empty text or again a sequence |
| YamlMeaning.LoadsUnlessDeep | base/gp_conf_yaml_loader.c:151-153 | a document is loaded if and only if it is nested at most 128 deep, each file by itself |
| YamlReading.TextReads | base/gp_conf_yaml_loader.c:224-279 | in any tree, every name that a document gives a text reads as that text, or as before if it is final |
| YamlReading.Overrides | base/gp_conf_yaml_loader.c:230-261 | below a name that a document mentions, what the document is silent about is what pruning leaves there; below a final name all stays |
| YamlReading.FieldsLookup | base/gp_conf_yaml_loader.c:224-279 | a mapping fills the child of each of its keys and leaves all others |
| YamlReading.ItemsInOrder | base/gp_conf_yaml_loader.c:185-212 | a sequence leaves the children it does not number where they are and puts its items behind them in order; an item that is there already keeps its value |
| YamlReading.LoadReads | base/gp_conf_yaml_loader.c:397-412 | the same for a mapping loaded at the root: texts read, overridden names are pruned, all others stay |
| YamlReading.LoadOrders | base/gp_conf_yaml_loader.c:397-412 | the same for a sequence loaded at the root |
| YamlReading.DecimalReads | base/gp_conf_yaml_loader.c:187-190 | items are named by their numbers in decimal digits |
| YamlReading.VersionNeeded | base/gp_conf_yaml_loader.c:161-175 | a document of another version, or of none, fails and changes nothing |
| YamlReading.CutOffFails | base/gp_conf_yaml_loader.c:155-159 | a file that is cut off anywhere fails |
| YamlReading.MissingFails | base/gp_conf_yaml_loader.c:110-113 | a file that is missing where it is to be included fails |
| Configuration.LookupChild | base/gp_conf.c:673-687 | the first child of a name |
| Configuration.PruneNode | base/gp_conf.c:785-808 | the recursive loop over the children is `Prune` of the model |
| Configuration.ParseEvents | base/gp_conf_yaml_loader.c:141-340 | the event loop, with its state, its item index, its recursion limit and its includes, is `Parse` of the model: same tree, same result, same events left |
| Configuration.HandleInclude | base/gp_conf_yaml_loader.c:91-130 | fails on a missing file; else parses the file's events at the target with a recursion count from 0 |
| Configuration.HandleSimple | base/gp_conf_yaml_loader.c:163-279 | a scalar event, or one to skip, in each state: root failure, sequence item, include key, key or value |
| Configuration.HandleKey | base/gp_conf_yaml_loader.c:230-261 | the value of a nameless sequence, and the child that is there, pruned unless final, or a new one, as current node |
| Configuration.Config.GetNode | base/gp_conf.c:193-213 | the walk down the parts of a name finds the node at its path; none for a name of 1024 bytes or more |
| Configuration.Config.Get | base/gp_conf.c:291-301 | the node's value, if there is a node |
| Configuration.Config.GetNodeOrCreate | base/gp_conf.c:69-107 | the loop over the parts of the name gives for each the child that is there or a new node |
| Configuration.Config.Link | base/gp_conf.c:69-107 | linking these nodes with a value in the last one is setting the value at the path |
| Configuration.Config.Set | base/gp_conf.c:220-233 | the nodes that the loop found or made, the last one with the value, are the tree of the model; failure on final nodes and long names |
| Configuration.Config.SetFinal | base/gp_conf.c:275-289 | likewise, and the value is final |
| Configuration.Config.Load | base/gp_conf_yaml_loader.c:397-412 | the tree and the result of parsing the events, and the files they include, below the root |

## Left out

- Hash table: dictGetRandomKey, dictGetSomeKeys, dictGetStats, dictFingerprint with unsafe
  iterators, rehashing by the clock, dictEmpty and dictRelease, the callbacks that copy and
  free keys and values, and the hash functions themselves. The bucket callback of dictScan,
  which only defragmentation uses, is not part of the model.
- HashTable.HashDict: an entry is identified by its key instead of its address; chains are
  sequences held by an array of buckets, so the relinking of an entry is a removal from one
  sequence and an insertion into another. Allocation always succeeds. The argument of
  dictRehash is a natural number.
- DictIterator.SafeIteration: the operations between two calls of dictNext are lookups,
  insertions, overwrites and removals of the entry just returned; removing another entry
  is not covered.
- TimerBases.TimerBase: the five vectors are one array of 512 lists, and a list is a
  sequence of timers (the linked form of lists is in `IntrusiveList`). The state field, the
  callbacks and their data are not part of the model; a callback does not touch the wheel.
- TimerRuns.AddedFiresOnTime: time is a natural number, and an expiry is one within 2^32
  ticks of it; only the distance between the two wraps around. The branch of
  gp_timer_internal_add for a late timer tests an unsigned number and is never taken. An
  interval is from 1 to 2^31 - 1.
- TimerNext.TickKeepsNext: a tick that finds next_timer too early after a deletion is not
  covered; the theorem about the search itself holds on every wheel.
- TimerNext.AddKeepsNext: expiries are compared as natural numbers up to 2^32 - 1. A late
  timer counts with the tick at which it fires, where the source compares 32-bit words.
- RingProtocol.RunKeepsOrder: cursors are natural numbers here, and 32-bit words in
  `RingWrap`. Weaker memory ordering than sequential consistency is not covered. A request is
  a natural number.
- RingWrap.WordRingIsFifo: runs in which an actor uses a cursor that is a full turn of 2^32
  old are excluded, also those of them that do no harm; `RingStale.StaleCursor` is one that does.
- RingOwn.OwnRingExact: the ring has `size` slots; `RingOwn.OwnSlotsExact` says when those
  that create_gp_ring allocates, as many as the capacity, are enough.
- IntrusiveList.List.Append: an item is its node, without the offset arithmetic; gp_list_replace,
  gp_list_active and gp_list_empty are not part of the model. Inserting a node that is on a
  list already only prints a message in the source; here it is a precondition that it is not.
- Codec.Encode: packing, unpacking and the table of registered names are parameters; error
  frames are left out. The byte that is read behind the name's terminator is a parameter.
- CodecFraming.Receive: decoding stops when a call takes nothing, as a caller has to that
  waits for more bytes; `CodecFraming.ServerLoop` is the loop of the server, which does not.
- GrowableBuffer.Buffer.ReadInt32: retrieve_as_string and the 8, 16 and 64-bit reads, which follow the same
  pattern as the 32-bit one.
- Connections.Connection: reading, reference counts and the callbacks are left out; writes
  are parameters. A connection is established once, when it is new.
- ThreadPool.PoolProtocol: a step is a whole critical section. Submitting a job without a callback does
  nothing in the source and is not an event here. Callers do not submit a job again while it
  is queued or once its destruction has begun, and do not queue it when all workers have
  left. wait_task, which locks where it should unlock, is left out.
- Sds.SplitArgs: the line is a C string, given by its bytes before the terminator; isspace
  and isprint are those of the C locale. The tokens and the growing string are values.
- Configuration.Config: the tree is a value, so the nodes are not updated in place and there
  are no parent pointers; the nodes on the way to a name are collected and then linked anew.
  Strings have no NUL. gp_conf_remove, the typed getters, the context backup and loading below a
  prefix are left out.
- YamlSpec.FinalValueWins: the lexer and the files are left out; the parser gets a list of
  events, whose end is a parse error. A scalar event carries the events of the file that it
  names, or that it is missing; files that include each other in a circle, which have no end,
  are not covered.
- YamlMeaning.LoadsWhatIsMeant: a document is one of texts, sequences, mappings and included
  files; aliases and streams of several documents are covered by `YamlSpec.ParsePreserves`.
  Keys are not empty and not the word `include`, and a file is included in a mapping.
- Sockets, epoll, event file descriptors, OpenSSL, the synchronous client, process names and
  address helpers are input and output; module ordering and the message drivers carry no
  properties of this kind.
