# Firewall log collector: verified model

A Dafny model of the parts of the firewall log collector and its dashboard where a mistake is hard to
see from outside, with proofs of what those parts promise. `dafny verify dfyconfig.toml` checks
everything.

The model follows the program's own components, one module each:

| modules | component |
|---|---|
| `GF256`, `ReedSolomon`, `PolyDivision`, `Powers`, `Distance`, `QrStream`, `QrBlocks`, `QrGrid`, `QrMatrix`, `QrReference` | the QR encoder of the dashboard (byte mode, level M, versions 1 to 10 of ISO/IEC 18004:2015), with a reader written as a specification, and the tables and figures of the standard it is held against |
| `Like`, `Filters`, `History`, `LiveTail` | search, paging, CSV export, live tail and retention of the events table |
| `Sources`, `Schedule`, `Listener`, `Writer`, `Pipeline` | the allow-list resolver and its waiting loop on a clock, the UDP listeners with their held datagrams, the writer, and all three kinds of thread interleaved |
| `Window`, `Lockout`, `SecondFactor`, `FactorEffects`, `Auth`, `Sessions`, `ResetTokens` | events counted over a sliding window, sign-in, second factor, sessions and password reset |
| `Geo`, `Layout` | the country range tables and the overview layout |
| `Wrappers`, `Arithmetic` | an optional value, minimum and maximum, powers of two |

How the pieces are modelled:

- A byte is a list of eight bits, most significant first, so that the bit stream, the field arithmetic
  and the modules of a symbol share one currency and no conversion sits between them.
- Code that changes things step by step is a method with loops proved against a specification
  function, or a class whose methods state their whole new state; what the program promises is then
  proved about the specification, over every input or every run.
- A table is a list of rows in id order. A query reads one snapshot; between the requests of a client
  rows may be inserted, with higher ids than ever before, as AUTOINCREMENT gives them, and pruned.
- The paging theorems rest on the skew assumption that the code states for its id margin: a row with
  a smaller timestamp has an id at most `WINDOW_ID_MARGIN` above that of a row with a larger one.
- `Pipeline` makes every read or write of shared state a step of its own, the three publications of a
  resolution round among them, and lets any number of listeners, the resolver and the writer
  interleave. `ResetTokens` does the same for the two critical sections of a password reset.
  `Schedule` puts the resolver's waiting loop on a clock, in seconds as real numbers: waits end at
  their timeout, on a trigger, or early for no reason, and a woken thread tests within a lag.
- Hashes, one-time codes, case folding, address parsing, the answers of the name service, the parsers
  of log lines and the clock are parameters of the functions and methods that use them.
- Ghost fields record history only where a promise is about it: the calls made so far, as the lockout
  and as the second factor see them, the answers of the resolution rounds, the session tokens refused.
  What is promised over time is proved of pure runs of calls in `Lockout` and `SecondFactor`; the
  manager's invariant says that its tables are what the runs of its own calls lead to.

## Model

| member | source | states |
|---|---|---|
| GF256.MulLoop | app/static/index.html:1809 | the shift-and-reduce loop computes the product in GF(256) modulo 0x11D |
| GF256.MulDistributes | app/static/index.html:1809 | multiplication distributes over exclusive or on both sides |
| GF256.MulCommutes | app/static/index.html:1809 | multiplication is commutative |
| GF256.MulAssociates | app/static/index.html:1809 | multiplication is associative |
| GF256.MulOne | app/static/index.html:1809 | 1 is the neutral element |
| GF256.MulTwo | app/static/index.html:1809 | multiplying by 2 is the shift with reduction |
| ReedSolomon.BuildGenerator | app/static/index.html:1810-1812 | the nested loop leaves the coefficients of the product of (x - 2^i) in the array, for any number of check bytes |
| ReedSolomon.GeneratorRoots | app/static/index.html:1810-1812 | that product vanishes at 2^0 to 2^(ecLen-1): the lower part equals the leading power there |
| ReedSolomon.RemainderLoop | app/static/index.html:1813 | the shift register after all message bytes, for any message and any generator |
| ReedSolomon.RsValue | app/static/index.html:1813 | wherever the generator vanishes the register equals the message times x^ecLen, so it is the remainder of the division |
| ReedSolomon.CodewordVanishes | app/static/index.html:1810-1813 | every message followed by its check bytes is zero at 2^0 to 2^(ecLen-1) |
| PolyDivision.EvalTimes | app/static/index.html:1809-1813 | the product of polynomials that the next two rows use is a product at every point |
| PolyDivision.GenIsProduct | app/static/index.html:1810-1812 | a leading 1 and the array left by the loop are the product of the factors (x - 2^0) to (x - 2^(ecLen-1)) |
| PolyDivision.RsIsTheRemainder | app/static/index.html:1810-1813 | bytes are the check bytes of a message if and only if message and bytes together are a multiple of that product |
| Powers.RootsDistinct | app/static/index.html:1809-1811 | the first 255 powers of 2 are distinct, so 0x11D is primitive and all roots of a generator differ |
| Distance.NoZeroDivisors | app/static/index.html:1809 | a product in the field is 0 only when a factor is |
| Distance.BlocksFarApart | app/static/index.html:1810-1813 | two different blocks of one length that vanish at the roots differ in more places than they have check bytes |
| Distance.CorrectsHalf | app/static/index.html:1810-1813 | so a block with at most half as many wrong bytes as check bytes belongs to one block only |
| QrStream.ChooseVersion | app/static/index.html:1783-1792 | the smallest version that holds the text; none exactly above 213 bytes |
| QrStream.BuildCodewords | app/static/index.html:1797-1806 | the codewords spell mode, count, bytes, terminator and alternating padding, and fill the version exactly |
| QrStream.AppendPadding | app/static/index.html:1804 | the exclusive-or trick alternates 0xEC and 0x11 up to the capacity |
| QrStream.ParseStream | app/static/index.html:1797-1806 | reading mode, count and bytes from the stream of any text that fits returns that text |
| QrReference.FitsCapacity | app/static/index.html:1783-1792 | the versions hold exactly the printed numbers of characters |
| QrReference.StreamFrame | app/static/index.html:1797-1802 | the stream starts with 0100 and the number of characters in 8 or 16 bits, and four zeros follow the characters |
| QrReference.StreamText | app/static/index.html:1801 | the characters stand in between, eight bits each, in order |
| QrReference.StreamPads | app/static/index.html:1803-1804 | 11101100 and 00010001 alternate behind the zeros up to the end |
| QrBlocks.AllDataUsed | app/static/index.html:1816-1824 | the short and long blocks use up all data codewords and no more |
| QrBlocks.BuildBlocks | app/static/index.html:1816-1824 | block j holds its share of the data, a dummy byte if it is short, and its check bytes |
| QrBlocks.Interleave | app/static/index.html:1825-1828 | the output lists the columns of all blocks without the dummies, and has exactly the version's number of codewords |
| QrBlocks.EncodeBlocks | app/static/index.html:1815-1828 | each block can be read back from its places in the output, data and check bytes |
| QrBlocks.DeinterleaveInverts | app/static/index.html:1815-1828 | taking the blocks apart returns the data codewords in order, and every block is a Reed-Solomon codeword |
| QrReference.BlocksAsPrinted | app/static/index.html:1783-1818 | every version has the printed groups of blocks, each with the printed numbers of data and check codewords |
| QrBlocks.DataInColumns | app/static/index.html:1825-1828 | the first data codewords of all blocks come first, then the second ones, and so on, those of the long blocks alone last |
| QrBlocks.ChecksInColumns | app/static/index.html:1825-1828 | then the first check codewords of all blocks, the second ones, and so on |
| QrGrid.ZigzagIsBijection | app/static/index.html:1864-1868 | every module outside column 6 is visited exactly once, for every size 4v+17 |
| QrGrid.ZigzagSteps | app/static/index.html:1864-1868 | the zigzag starts in the bottom right corner; a step to the left is followed by one to the right in the next row, upward in even column pairs and downward in odd ones |
| QrGrid.ZigzagTurns | app/static/index.html:1864-1868 | each pair starts in the row where the one before it ended, one column further left; column 6 is left out |
| QrGrid.RankCounts | app/static/index.html:1864-1871 | a data module's place in the stream is the number of data modules visited before it |
| QrGrid.ReservedIsCover | app/static/index.html:1834-1862 | the reserved modules are a fixed list of rectangles |
| QrGrid.Capacity | app/static/index.html:1783-1784 | the unreserved modules of every version hold all codewords of the table, with at most 7 bits to spare |
| QrGrid.ReadBack | app/static/index.html:1864-1877 | following the zigzag through the mask reads a stream back in order |
| QrMatrix.AlignmentPositions | app/static/index.html:1844-1849 | the step formula yields the alignment coordinates of the standard for versions 1 to 10 |
| QrMatrix.DrawFunctionPatterns | app/static/index.html:1833-1862 | after drawing exactly the reserved modules are marked, each in the colour of its pattern |
| QrMatrix.PlaceData | app/static/index.html:1864-1871 | every data module holds its bit of the stream, modules past the end stay light, nothing else changes |
| QrMatrix.ApplyMask | app/static/index.html:1873-1877 | exactly the data modules selected by the mask are inverted |
| QrMatrix.DrawFormat | app/static/index.html:1878-1891 | both copies of the format bits are drawn, reserved modules only, all others keep their colour |
| QrMatrix.DrawVersion | app/static/index.html:1919-1926 | both copies of the version bits are drawn from version 7 on, all others keep their colour |
| QrMatrix.TryMask | app/static/index.html:1930-1933 | a trial leaves every module outside the format areas as it was |
| QrMatrix.MaskAndFormat | app/static/index.html:1927-1936 | the forced mask, or the first of the best scores, is applied once to the untouched symbol |
| QrMatrix.FormatReadBack | app/static/index.html:1878-1891 | the format modules of a finished symbol name level M and the mask that was applied |
| QrReference.FindersShown | app/static/index.html:1833-1842 | every finished symbol shows the printed finder pattern and separator in three corners |
| QrReference.TimingShown | app/static/index.html:1843 | and the alternating lines between them |
| QrReference.AlignmentsShown | app/static/index.html:1844-1855 | and the alignment pattern at every pair of the printed coordinates but the three on a finder |
| QrReference.FormatsShown | app/static/index.html:1878-1891 | and the printed format information of its mask, twice, and the dark module |
| QrReference.VersionsShown | app/static/index.html:1919-1926 | and from version 7 on the printed version information, twice |
| QrReference.MasksAsPrinted | app/static/index.html:1873-1876 | the eight masks are their pictures, repeated over the symbol |
| QrMatrix.CodewordsReadBack | app/static/index.html:1864-1891 | reading a finished symbol under the mask it names returns the codewords drawn into it |
| QrMatrix.DecodeInverts | app/static/index.html:1797-1936 | a symbol that shows the encoded blocks of a text reads as that text |
| QrMatrix.QrMatrix | app/static/index.html:1779-1938 | nothing exactly above 213 bytes; otherwise a symbol of the smallest version that shows the encoded blocks of the text and reads back as the text, its blocks all codewords, for any mask scores |
| Like.ReplacementsEscape | app/store.py:129-135 | the three replacements in their order put one backslash before every special character and touch nothing they wrote themselves |
| Like.PatternIsContains | app/store.py:129-135 | LIKE with the pattern matches exactly the texts that contain the value literally, up to ASCII case |
| Like.MatchesPrefix | app/store.py:186-188 | an unescaped value without wildcards and "%" match exactly the texts that start with it |
| Like.ContainsExactly | app/store.py:129-135 | containment said of the characters |
| Like.FoldExactly | app/store.py:129-135 | two characters count as the same when they are, or are the two cases of one ASCII letter |
| Filters.TermClauseMeans | app/store.py:157-172 | a substring term selects by containment or by the other spelling of a protocol, "!" inverting both |
| Filters.NegationIsComplement | app/store.py:157-172 | "!" in front of a term selects exactly the rows that the term, taken literally, does not; for a term without a sign that is the complement of its own clause, while "!!x" negates the literal "!x" |
| Filters.PortClause | app/store.py:173-188 | a port term selects by prefix of the decimal text, by value after "=", inverted by "!" |
| Filters.FilterClauses | app/store.py:138-196 | the clauses built field by field select exactly the rows the filter asks for |
| Filters.SelectedExactly | app/store.py:138-196 | what each field of a filter asks for, field by field |
| Filters.PortSelectedExactly | app/store.py:173-188 | the four ways to ask for a port |
| Filters.DecimalDigits | app/store.py:185-187 | the decimal text of a stored port: no leading zero, the last digit last |
| Filters.NumberOfDecimal | app/store.py:181-184 | reading that text as a number gives the number |
| History.QueryRange | app/store.py:265-331 | floors, ceilings, cap and cursor together return the page that the plain form cut at the scan floor gives |
| History.CapBoundsScan | app/store.py:306-330 | with a span and any filter but the device no row lies more than span ids below the start, and a page that is not full goes on exactly there, unless the range has ended |
| History.NoCapNoCut | app/store.py:306-330 | without a span, or with the device alone, a page that is not full is the last one |
| History.StartsAt | app/store.py:286-318 | the start is the cursor, or 10000 ids behind the first row after the range, or the newest row; the range starts 10000 ids before its first row |
| History.FirstFromLeast | app/store.py:291-303 | the lookup by time finds the least (ts, id) at or above the bound |
| History.WindowSafe | app/store.py:286-305 | under the skew assumption no row of the time range lies outside the id window |
| History.FoundExactly | app/store.py:265-276 | the plain form lists exactly the wanted rows of a window, newest first |
| History.PageRefines | app/store.py:306-331 | a page and what remains below its cursor are what remained before; the cursor is positive and falls; a page that is not full has examined span ids |
| History.PageStep | app/store.py:283-331 | a request returns exactly the wanted rows its snapshot holds between its cursor and the next one |
| History.FollowExactly | app/store.py:265-331 | whatever happens to the table between the requests, a client gets a row exactly when it is wanted and in the snapshot of the request that reads its part of the table |
| History.FollowDescends | app/store.py:265-331 | rows come newest first and none twice across all pages, whatever happens to the table meanwhile |
| History.FollowSurvivors | app/store.py:265-331 | with rows inserted and pruned between the requests, a client gets the wanted rows of the first snapshot that survive until their page is read, and nothing else |
| History.FollowIsEverything | app/store.py:265-331 | when no row goes meanwhile, following the cursor to the end gives every matching row of the first snapshot exactly once, newest first |
| History.RequestsBound | app/store.py:306-330 | whatever happens to the table meanwhile, the number of requests is at most ceil(range / span) + floor(rows delivered / limit) + 1 |
| History.StreamCsv | app/webserver.py:1341-1352 | the export writes exactly the first limit rows of what following the cursor gives, whatever happens to the table meanwhile |
| History.ExportIsEverything | app/webserver.py:1341-1352 | when no row goes meanwhile, those are the first limit matching rows of the first snapshot |
| LiveTail.QueryLive | app/store.py:220-252 | a poll returns the first rows above its cursor, or the newest rows when there is no cursor, and the cursor of the last of them |
| LiveTail.TailExactly | app/store.py:220-230 | those are exactly the shown rows above the cursor, oldest first |
| LiveTail.PollAbove | app/store.py:220-230 | a poll with a cursor returns the shown rows above it, oldest first, and leaves out only later ones, when it is full |
| LiveTail.PollNewest | app/store.py:231-243 | a poll without one returns the shown rows above its floor, oldest first, and leaves out only older ones, when it is full |
| LiveTail.BackfillBound | app/store.py:232-240 | that floor is a million ids below the newest row with any filter but the device, and none otherwise |
| LiveTail.CursorAfter | app/store.py:230-251 | the cursor a poll returns |
| LiveTail.FirstPollIsCurrent | app/store.py:231-252 | after a poll without a cursor no shown row lies above the cursor, which is positive unless the table is empty |
| LiveTail.OpensCurrent | app/store.py:231-252 | so on a store with rows the polls after the first are a run from a positive cursor with nothing shown above it |
| LiveTail.RunOpens | app/store.py:220-252 | from an empty store on, the tail is in order, unrepeated and gapless at every moment if and only if every poll that still has no cursor finds no more to show than its limit and nothing below the scan cap |
| LiveTail.NeverLater | app/store.py:224-230 | what a poll has left behind its cursor is never delivered |
| LiveTail.GapExample | app/store.py:231-251 | two rows inserted into an empty store before a first poll with limit 1: the first row is left behind |
| LiveTail.PruneExactly | app/store.py:103-112 | retention keeps exactly the rows that are young enough and among the newest ids, so at most the row cap |
| LiveTail.RunDelivers | app/store.py:220-230 | over every run of inserts, prunes and polls rows are delivered in order, none twice, none that is still stored skipped |
| LiveTail.PrefixWithoutPruning | app/store.py:220-230 | without pruning the polls deliver a prefix of all shown rows above the starting cursor |
| Sources.SourceFilter.Trigger | app/sources.py:180-186 | asks for a round exactly when host names are configured |
| Sources.SourceFilter.ResolveAll | app/sources.py:140-178 | a round learns every successful answer and keeps the rest, and bumps the generation exactly when something changed |
| Sources.NoNewsNoChange | app/sources.py:164-178 | a round that reports no change has learned nothing |
| Sources.KnownIsLastAnswer | app/sources.py:146-176 | after any rounds the known addresses of a host are its last successful answer |
| Sources.SourceFilter.AllowedExactly | app/sources.py:171-177 | between rounds the allowed networks are exactly the literal ones and those of each host's last successful answer |
| Sources.SourceFilter.AllowsExactly | app/sources.py:67-122 | a sender is allowed exactly when nothing is configured, or a configured network or the last answer of a host has its address |
| Schedule.BackoffMonotone | app/sources.py:188-191 | the delay never shrinks while rounds keep failing, lies at or above the first retry or the interval, and never exceeds the interval |
| Schedule.DelayDoubles | app/sources.py:188-191 | the first retry comes after the retry delay, each further one after twice the delay before |
| Schedule.IntervalIs | app/sources.py:188-191 | the delay counts until it exceeds the interval, and only after a failure |
| Schedule.RunNaps | app/sources.py:204-208 | no single sleep is longer than five seconds |
| Schedule.RunGood | app/sources.py:193-209 | in every run of rounds, triggers, early and late wake-ups the next round starts exactly when it should, at the deadline or at the later of trigger and end of the gap, whichever is sooner, at most the lag late; and no wait overstays that |
| Schedule.RoundsApart | app/sources.py:193-209 | in every run, a round starts at least the gap after the previous one's end when neither the retry delay nor the interval is shorter |
| Schedule.ApartExactly | app/sources.py:188-209 | that holds of every run if and only if neither is shorter: otherwise a run is shown with rounds closer than the gap |
| Schedule.KickPending | app/sources.py:180-209 | in every run a trigger stays pending until a round starts |
| Schedule.KickServed | app/sources.py:202-209 | in every run the first test at or after the end of the gap starts the round of a pending trigger |
| Schedule.KickInTime | app/sources.py:180-209 | in every run no pending trigger has waited past the later of its own time and the end of the gap, plus the lag |
| Schedule.RunChained | app/sources.py:193-209 | rounds follow one another: each wait starts from a round's end, after that round's start |
| Listener.ExpireExactly | app/listener.py:90-93 | expiry from the front keeps exactly the entries that are young enough |
| Listener.ReleasePartitions | app/listener.py:99-107 | a release splits the held entries into all allowed and all others, losing none |
| Listener.ReleaseInOrder | app/listener.py:99-108 | both halves stay in the order in which they were held |
| Listener.AddKeepsNewest | app/listener.py:87-97 | holding a datagram appends its first 4096 bytes and keeps exactly the held ones that are young enough and among the newest |
| Listener.Held.Add | app/listener.py:95-97 | the new entry goes last, truncated, after expiry and within the bound |
| Listener.Held.Release | app/listener.py:99-107 | returns the allowed entries oldest first and holds the others |
| Listener.Shared.Ingest | app/listener.py:110-131 | an event is queued as it is, an unparsed line with its first 4096 characters, anything else counted as ignored; on a full queue it is counted as dropped |
| Listener.Shared.Replay | app/listener.py:134-144 | exactly the released datagrams are ingested in order and leave the rejected count, not below zero |
| Listener.IngestAllConserves | app/listener.py:127-144 | every replayed datagram ends in exactly one place and the queue keeps its order and bound |
| Listener.ReplayExactly | app/listener.py:134-149 | a replay queues the rows of its datagrams in order, dated when they came in, as many as there is room for, and counts the rest by kind |
| Writer.WriterThread.Flush | app/writer.py:47-63 | all buffered rows are stored in order, once, and the published counters agree with the tables |
| Writer.WriterThread.FinalDrain | app/writer.py:89-98 | at shutdown everything still queued is stored, in order, by kind |
| Writer.PickSplits | app/writer.py:35-45 | every queued item goes to exactly one of the two tables |
| Writer.PickKind | app/writer.py:35-45 | one table takes the events, the other everything else |
| Writer.PickConcat | app/writer.py:89-98 | in the order of the queue |
| Writer.HealthCounts | app/writer.py:35-43 | a device's lifetime total grows by exactly its events and it was last seen at the last one |
| Pipeline.NoLostReplay | app/listener.py:190-208 | in every interleaving, a listener that has recorded the current generation holds no datagram of an allowed sender, unless it is releasing or a publication is half done |
| Pipeline.RunWatched | app/sources.py:171-177 | everything held was refused by an allowed set at least as new as the recorded generation |
| Pipeline.AllowedExactly | app/sources.py:171-177 | in every interleaving, unless known addresses are being published, the allowed networks are exactly the literal ones and those of each host's last successful answer |
| Pipeline.AllowsExactly | app/sources.py:67-122 | so then a sender is allowed exactly when nothing is configured, or a configured network or the last answer of a host has its address |
| Pipeline.NothingUnadmitted | app/listener.py:99-107 | in every interleaving, what is ingested or replayed was admitted by an allowed set at least as new as the recorded generation |
| Pipeline.ActCarries | app/listener.py:87-107 | a held datagram leaves its listener only by expiry, by overflow, or by being replayed |
| Pipeline.ActBalanced | app/listener.py:134-144 | every listener step is balanced, and taking replayed datagrams off the rejected count never clips at zero |
| Pipeline.RunAccounted | app/listener.py:110-149 | in every interleaving every datagram ever received is in exactly one place, the rejected count covers all held ones, and every buffer keeps its bound |
| Pipeline.DrainedIsComplete | app/writer.py:89-98 | once all threads rest and the buffers are empty, received = stored + ignored + dropped + rejected |
| Pipeline.RunFiled | app/listener.py:110-131 | in every interleaving the rows of all datagrams handed to the parser are, by kind and in order, in the two tables, their buffers and the queue, or counted as ignored or dropped |
| Pipeline.DrainedByKind | app/writer.py:89-98 | after the final drain the two tables hold exactly the events and the unparsed lines that found room, in order |
| Pipeline.RunGenuine | app/listener.py:95-208 | in every interleaving what is held, in hand or handed to the parser is a datagram that came in, or its first 4096 bytes |
| Pipeline.ChecksNotice | app/listener.py:190-195 | once a listener has checked, it has recorded the generation current then before it does anything but start its release |
| Pipeline.RefusedIsHeld | app/listener.py:199-206 | with host names configured a refused datagram is held before its listener does anything else |
| Pipeline.HeldIsTriggered | app/listener.py:203-206 | and a trigger has followed by the time the listener goes on |
| Pipeline.NoLostTrigger | app/sources.py:180-209 | in every interleaving a trigger is followed by a round that starts after it |
| Window.OldestBounds | app/auth.py:511-524 | the oldest event of a window is one of its events and none of the window lies before it |
| Window.PushBounded | app/auth.py:511-542 | an event let in because the window before it was not full leaves no window overfull, however late it arrives |
| Lockout.CheckLockout | app/auth.py:511-542 | the loop over the tiers finds the latest end of a lockout |
| Lockout.UnlockedBelow | app/auth.py:526-542 | a caller who is let through is below the threshold of all three tiers |
| Lockout.LockedExactly | app/auth.py:511-542 | a caller is locked out exactly when the last 900 seconds hold 5 failures of the name at the address, 20 of the name or 50 at the address |
| Lockout.TierLimits | app/auth.py:511-542 | over every run of calls no inclusive 15-minute window holds more than 5, 20 or 50 failures per pair, username, address |
| Lockout.RunLimited | app/auth.py:544-591 | the same for every tier at once, successes and clearing and housekeeping included |
| Lockout.LockPersists | app/auth.py:526-542 | "locked until u" names a tier that refuses all its callers at every moment up to u, whatever is tried meanwhile, right passwords included, unless a failure is cleared that this tier counts |
| Lockout.LockEnds | app/auth.py:526-542 | on the table of any run u lies at most 900 seconds ahead, 900 seconds after a stored failure, and with nothing recorded meanwhile the caller is let through at u + 1 |
| Lockout.TryExactly | app/auth.py:574-588 | what an attempt does to the rows: nothing while locked, a row more, or the user's failures gone and no other |
| Lockout.StrangerHarmless | app/auth.py:582-588 | a sign-in or clearing of anybody without a failure at a locked address is no such clearing |
| Auth.AuthManager.CreateUser | app/auth.py:380-399 | an account is created exactly when its name is new up to case, without a second factor |
| SecondFactor.TotpMatch | app/auth.py:226-244 | the earliest step within one of the clock that is newer than the last one burned and has this code, if any; or that the comparison raises |
| SecondFactor.RaisesExactly | app/auth.py:230-243 | comparing a code raises exactly when it is six digits not all ASCII and a candidate step is left to compare it with |
| FactorEffects.AcceptedCode | app/auth.py:715-741 | an accepted code is the six-digit code of a step within one of the clock newer than the last one burned, or hashes like an unused recovery row of the user |
| FactorEffects.RightCodeAccepted | app/auth.py:715-724 | every code of such a step is accepted |
| FactorEffects.RecoveryCodeAccepted | app/auth.py:726-741 | and every other text that hashes like such a row |
| FactorEffects.AcceptedCall | app/auth.py:642-806 | an accepting call has looked at the secret, rows and pending sign-in of the user it accepts |
| FactorEffects.TypedInHalves | app/auth.py:233 | white space around a code or a blank in its middle does not matter |
| FactorEffects.NormPlain | app/auth.py:726 | recovery codes are compared without dashes and blanks |
| Auth.AuthManager.VerifyLogin | app/auth.py:544-591 | locked callers are refused unchanged; otherwise exactly a caller who knows the password of the account of that name gets in, any other leaves one failure more, and a success clears the history only without a second factor |
| Auth.AuthManager.VerifyCurrentPassword | app/auth.py:593-623 | the same tiers; a failure is recorded, a success clears |
| Auth.AuthManager.DeleteUser | app/auth.py:455-473 | account, set-up, recovery codes and pending sign-ins of the user go, nobody else's |
| FactorEffects.RemovedExactly | app/auth.py:455-473 | said of the rows: nothing of the user is left, nothing of anybody else has changed |
| Auth.AuthManager.TotpBegin | app/auth.py:626-640 | a fresh secret waits aside and replaces an unconfirmed one; the account does not change |
| FactorEffects.SetUpLives | app/auth.py:642-651 | a set-up can be confirmed for 600 seconds |
| Auth.AuthManager.TotpConfirm | app/auth.py:642-673 | the code that proves the new secret burns its step, and fresh recovery codes replace all old ones |
| FactorEffects.ConfirmedExactly | app/auth.py:642-673 | said of the rows: the account has the secret and the burned step, its recovery rows are the fresh codes, nothing of anybody else has changed |
| FactorEffects.ConfirmedInTime | app/auth.py:642-655 | over every run a second factor is turned on at most 600 seconds after a set-up of that user, by a code of its secret |
| Auth.AuthManager.TotpDisable | app/auth.py:675-688 | secret, recovery codes, set-ups and pending sign-ins of the user all go, nobody else's |
| FactorEffects.DisabledExactly | app/auth.py:675-688 | said of the rows: the account has no second factor and nothing pending, nothing of anybody else has changed |
| Auth.AuthManager.NewRecoveryCodes | app/auth.py:690-707 | replaces the codes exactly for an account whose second factor is on |
| FactorEffects.RenewedExactly | app/auth.py:690-707 | said of the rows: the user's recovery rows are the fresh codes, unused, and nothing else has changed |
| SecondFactor.FindRecoveryExactly | app/auth.py:728-733 | the search finds an unused row of that user and hash exactly when there is one |
| Auth.AuthManager.ConsumeSecondFactor | app/auth.py:715-741 | burns the matched step or uses up one recovery row, and changes nothing else; when comparing or hashing the code raises, nothing changes |
| Auth.AuthManager.VerifyTotpCode | app/auth.py:743-753 | the same for a signed-in user with a second factor, exceptions included |
| Auth.AuthManager.TotpLoginBegin | app/auth.py:755-768 | a new token starts with no checks and no success |
| FactorEffects.SignInLives | app/auth.py:755-792 | it takes codes for 300 seconds, as long as the account has a second factor |
| FactorEffects.CheckedInTime | app/auth.py:755-792 | over every run a code is checked only within 300 seconds of the sign-in it belongs to |
| Auth.AuthManager.CheckCode | app/auth.py:795-815 | the check counts before the code is looked at; then a right code closes the sign-in and clears, a wrong one is a failed sign-in, unless an exception is raised: then nothing is recorded |
| FactorEffects.WrongCodeCounts | app/auth.py:795-815 | four wrong codes leave the sign-in with one check more, the fifth ends it |
| FactorEffects.RightCodeEnds | app/auth.py:807-809 | a right one ends it at once |
| Auth.AuthManager.TotpLoginFinish | app/auth.py:770-818 | a dead token is deleted, a locked caller changes nothing, a token that cannot be hashed raises before anything changes; otherwise one code is checked, and the attempt is recorded unless an exception is raised |
| SecondFactor.BreaksExactly | app/auth.py:718-727 | the check of a live sign-in is spent and not recorded exactly for codes of 1 to 64 characters that are six digits not all ASCII, with a candidate step unburned, or that hold a lone surrogate |
| SecondFactor.WideDigitsBreak | app/auth.py:795-806 | six full-width digits are such a code: the sign-in stays, with one attempt more, and nothing else changes |
| SecondFactor.SurrogateBreaks | app/auth.py:726-727 | a single lone surrogate is another |
| Auth.AuthManager.ClearLockout | app/auth.py:913-920 | exactly the user's failures go |
| Auth.AuthManager.Prune | app/auth.py:1085-1100 | only attempts past retention and expired sign-ins go |
| FactorEffects.PurgedExactly | app/auth.py:1085-1100 | exactly the expired sign-ins and set-ups go |
| SecondFactor.StepsRise | app/auth.py:642-741 | over every run of calls the steps accepted for one enrolment rise strictly |
| SecondFactor.StepNearClock | app/auth.py:226-244 | over every run an accepted step lies within one of the clock |
| SecondFactor.RowsOnce | app/auth.py:728-741 | over every run no recovery code is accepted twice, replacement of codes included |
| SecondFactor.TokenBounds | app/auth.py:770-818 | over every run a sign-in token has at most five codes checked and at most one success |
| SecondFactor.NoCheckAfterWin | app/auth.py:807-815 | after a success no code is checked for that token any more |
| Auth.AuthManager.TokensBounded | app/auth.py:755-818 | those bounds hold of the manager's own calls, whatever they were |
| Auth.AuthManager.FactorsOnce | app/auth.py:642-741 | no step of an enrolment and no recovery code was accepted twice among the manager's own calls |
| Auth.AuthManager.LockLasts | app/auth.py:526-623 | a caller the manager refused until u is still refused at any time up to u, with everyone the locking tier is about, unless a call since cleared a failure that tier counts |
| Auth.AuthManager.AttemptsLimited | app/auth.py:511-623 | the window limits hold for the manager's table between any two calls |
| Sessions.DeadlineExact | app/auth.py:821-856 | with an idle timeout the deadline is always min(last effective activity + idle, created + cap) |
| Sessions.DeadStaysDead | app/auth.py:837-856 | a session past its deadline stays so, whatever activity follows |
| Sessions.TouchedExactly | app/auth.py:837-856 | activity in time moves the deadline to the idle timeout from now, not past the cap and not back |
| Sessions.SessionStore.TouchSession | app/auth.py:837-856 | slides the deadline of that session only, never back |
| Sessions.SessionStore.GetSession | app/auth.py:858-881 | accepts exactly the live sessions of existing users, deletes an expired row, and never accepts a token it refused for any reason |
| Sessions.SessionStore.AddUser | app/auth.py:380-397 | a user gets an id that no user had before |
| Sessions.SessionStore.DeleteUser | app/auth.py:455-473 | the sessions of a deleted user go, nobody else's |
| Sessions.SessionStore.CreateSession | app/auth.py:821-835 | a session starts with the idle deadline, or the cap when that is sooner or the timeout is off |
| Sessions.SessionStore.DeleteSession | app/auth.py:905-911 | removes exactly that session |
| Sessions.SessionStore.RevokeOtherSessions | app/auth.py:894-903 | removes exactly the user's sessions other than the kept one |
| ResetTokens.RunSafe | app/auth.py:938-1014 | in every interleaving a user has at most one unused token, no token writes a password twice, and no address stores more than 20 submissions in an hour |
| ResetTokens.OneWriterPerToken | app/auth.py:965-1014 | however the submissions of one token interleave, at most one of them sets a password |
| ResetTokens.FreshTokenLives | app/auth.py:938-963 | a new token lives for 1800 seconds, the user's older ones no longer |
| ResetTokens.TokenStays | app/auth.py:938-963 | until then only the user's next token, its own use or the end of the user ends it |
| ResetTokens.WritesInTime | app/auth.py:938-1014 | in every interleaving a password is written only for the user a token was created for, by a submission at most 1800 seconds later, with no newer token created in between |
| ResetTokens.SecondSectionExactly | app/auth.py:997-1014 | the second section writes the password exactly for a live token, which is dead afterwards |
| ResetTokens.FirstSectionExactly | app/auth.py:980-994 | a submission is turned away exactly when the last 3600 seconds hold 20 stored ones of its address |
| ResetTokens.LimitEnds | app/auth.py:981-988 | one turned away is told when a stored one leaves the window, and a second later it would get through |
| Geo.WriteTable | scripts/build_geo.py:129-151 | the written bytes are the records of exactly the ranges that start behind the last one kept; a bound that does not fit its width is an error |
| Geo.BigEndianDigit | scripts/build_geo.py:129-151 | numbers are written most significant octet first |
| Geo.RecordExample | scripts/build_geo.py:129-138 | one record of the IPv4 table, octet by octet |
| Geo.DecodeEncode | scripts/build_geo.py:129-151 | the written records decode to exactly the kept ranges |
| Geo.KeptStacked | scripts/build_geo.py:129-151 | the kept ranges are sorted and pairwise disjoint |
| Geo.DroppedOverlaps | scripts/build_geo.py:133-134 | a dropped range starts inside a kept one |
| Geo.LoadTable | app/geo.py:48-69 | as many whole records as the data holds, decoded into parallel arrays |
| Geo.BisectRight | app/geo.py:101 | the number of starts at or below the address |
| Geo.Lookup | app/geo.py:100-108 | the bisection gives the answer of a linear scan of the kept ranges |
| Geo.LowerLetters | app/geo.py:100-108 | a code comes out in small letters |
| Geo.KeptScansLikeInput | scripts/build_geo.py:101-151 | for disjoint input the kept ranges answer like a scan of all input ranges |
| Geo.CompileAndLookup | app/geo.py:90-108 | compiling, loading and looking up give an address the country of the range that contains it |
| Geo.Countries.Country | app/geo.py:75-84 | the bounded memo never changes an answer |
| Layout.ValidateLayout | app/webserver.py:241-279 | a layout is taken exactly when it has at most 50 acceptable categories with distinct names up to case; unknown and repeated devices are gone from it |
| Layout.LayoutOkExactly | app/webserver.py:241-279 | the rules for the categories, written out |
| Layout.CheckedExactly | app/webserver.py:264-279 | every category keeps its stripped name, and a configured device is in the first one whose list has it |
| Layout.LayoutStore.Save | app/layout.py:59-66 | the store then holds exactly the given categories |
| Layout.LayoutStore.Resolve | app/layout.py:84-107 | returns the placed categories and the leftovers for the configured devices |
| Layout.FirstNaming | app/layout.py:99-105 | names and order stay, and a device stands exactly in the first category that names it |
| Layout.ResolvePartitions | app/layout.py:84-107 | for duplicate-free devices the categories and the leftovers together are a permutation of the device list |
| Layout.LeftoverInOrder | app/layout.py:106 | leftovers stand in the order of the device list |
| Layout.ResolveKeepsChecked | app/webserver.py:241-279 | a validated layout, saved and resolved against the same devices, comes back exactly as it is |

## Left out

- The penalty score of a mask (app/static/index.html:1892-1918): the eight scores are a parameter, and everything is proved for any scores.
- UTF-8 encoding of the text: the encoder starts from the bytes.
- GF256.MulLoop: the code lets a ninth bit appear for one step and clears it with 0x11D; the model does both in one step on eight bits, which is the same product.
- The documentation comment of the version table (app/static/index.html:1781-1782) names four numbers per version; the table holds three, and the model follows the table.
- SQLite itself: a query is a function of one snapshot, a transaction under the lock is one step. `vacuum`, indexes and the meta table are not modelled.
- The table of unparsed lines: its retention repeats that of the events table.
- History.FollowSurvivors: that nothing inserted later is delivered too asks that the scan cap, where it applies, exceeds the id margin (the program uses 1000000 against 10000) or that nothing changes between the requests; with a smaller cap the first cursor of a bounded range can lie above the newest row. History.FollowExactly needs no such condition and says what is delivered then.
- The skew assumption itself: it holds of rows inserted in clock order up to a bounded delay, which the program relies on and does not enforce.
- LiveTail.RunDelivers: speaks of polls from a positive cursor; polls without one are LiveTail.OpensCurrent and LiveTail.RunOpens.
- The `since` and `limit` checks of the request handlers, and the upper-case and JSON forms of the results.
- Sources.SourceFilter.ResolveAll: the log of failed lookups and `host_for` only produce messages and are not modelled; the answer to a name is a parameter, the empty set of addresses being one of them.
- Pipeline.NoLostTrigger: says that a round follows, not when; the times are Schedule.RunGood and Schedule.KickInTime, on a machine of the waiting loop alone. In Pipeline waiting and clearing the flag are one step.
- The moments at which the writer flushes and prunes: Pipeline lets it flush at any time.
- The regular expressions that parse log lines: a line is an event, unparsed or ignored.
- Sockets, decoding of datagrams and the rate-limited log of rejections.
- Concurrent calls inside sign-in and the second factor: Auth serialises calls. Between the check and the recording of an attempt the program releases its lock, so concurrent attempts can exceed the thresholds there.
- SecondFactor.RaisesExactly: speaks of the time from the second half-minute of the epoch on; before that, comparing with the negative step raises for every six-digit code, which SecondFactor.TotpMatch includes.
- SecondFactor.BreaksExactly: takes from Unicode that surrogates are neither white space nor digits and that lower-casing neither makes nor removes them.
- Text with lone surrogates outside the second factor: usernames are ASCII by their pattern, a password that cannot be encoded is a wrong one (app/auth.py:131-141), and a session token comes from a cookie header, which has none.
- Password hashing, HMAC, base32 and random tokens: parameters. A new token's hash is required to be new, and lookups by hash assume no collisions.
- Roles, the last-admin rule, e-mail addresses, API keys and mail.
- Auth.AuthManager.CreateUser: the policy for names, passwords and roles is checked before and is not modelled, nor are constraints of the table other than the unique name.
- ResetTokens.RunSafe: what a successful reset removes beyond the token (sessions, failed attempts) and the password policy are not part of the machine; a submission with a token that is empty, overlong or cannot be hashed never enters it, and one whose new password cannot be hashed stays between its two sections.
- Sessions.SessionStore.CreateSession: asks for a token that was never refused before, as random tokens are, and for a user id that has been given out, though the user may be gone. The clock does not run back.
- The users table: accounts and names are in Auth, ids and sessions in Sessions, and deleting a user is a call of each.
- Downloading and parsing the delegation files: Geo starts from ranges, and the sort is any sorted permutation of them. A range must not end more than one below its start, which holds for delegations of zero or more addresses; its country code has exactly two letters, as the filter on the files demands.
- The test for globally routable addresses and the case of an address that does not parse: Geo.Countries takes the whole lookup as a parameter.
- Writing and reading the layout file: Layout.LayoutStore.Save replaces the categories in memory only.
- The rest of the dashboard page, the web server, configuration, country flags and the mailer.
