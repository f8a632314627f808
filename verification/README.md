# Verified models of the systems labs

This project models the algorithmic cores of a set of systems-programming labs and proves
what they promise: a set-associative LRU cache simulator, the job control and the command
line parser of a shell, a caching web proxy used by many threads, buffered input, in-place
data structures, and bit-level arithmetic. `dafny verify dfyconfig.toml` checks all of it.

## How the models are built

Code that updates state in place is imperative here too: the cache is a class over arrays
of lines, the job list a class over an array of 64 slots, the parser cuts words out of its
own buffer by writing NULs, the web cache is a doubly linked list of heap nodes, the string
queue a singly linked one with a tail pointer, the reader a buffer refilled from a source
that may deliver any number of bytes or be interrupted at any read. Each such method is
proved against a specification on values, and the theorems are proved about that
specification. Concurrency is modelled as state machines whose steps interleave freely.

| files | what they model |
|---|---|
| `Lru`, `LruTheory`, `LruBalance`, `CacheSim` | the cache simulator: specification, stack distance and inclusion theory, conservation laws, the code on timestamps |
| `JobTable`, `Shell`, `ShellSafety`, `ShellTheorems`, `ShellWakeup`, `ShellCommands` | the job list, the shell with its handlers and its children as a step machine, the invariant of every run, the theorems, when a waiting shell wakes up, what whole commands and the keyboard do |
| `ParseLine`, `ParseRoundTrip`, `Eval` | the in-place command line parser, the printer it undoes and the lines it refuses, and what the shell makes of a line |
| `WebCacheModel`, `WebCache`, `ProxySections`, `Proxy`, `ProxySteps`, `ProxyRuns`, `ProxyLru` | the object cache on values and on heap nodes, the critical sections of a proxy thread, any number of threads under one mutex, the sections as steps of such a thread, whole requests, the eviction policy over whole runs |
| `Rio`, `StringQueue`, `Sampler`, `Transpose` | buffered reading and response forwarding, the string queue, the k-best sampler, the transposition kernels |
| `Words`, `Fields`, `Masks`, `BitCount`, `BitMirror`, `LongArithmetic`, `FloatBits`, `FloatRounding` | machine words as numbers with the C operators written out, and the bit-level puzzles |
| `Basics` | options and sequences without one element, for all of the above |

## Where the code differs from its description

- `shelllab/tsh_helper.c` takes the last word of a line for the background marker whenever it
  begins with `&`, quoted or longer words included. `ParseRoundTrip.RoundTrip` states exactly
  when a printed command is read back, and `ParseRoundTrip.QuotedAmpersandIsLost` is a
  command that is not.
- `shelllab/tsh.c` takes the result of `sscanf` for success unless it is 0, but a string that
  ends before a number gives a negative one: `bg ''` goes on with a number never set.
  `Eval.UnclearExactly` says for which arguments.
- `shelllab/tsh_helper.c` stops collecting words at 127 although the array has 128 places; the
  last place always holds the terminating null pointer. `ParseRoundTrip.RestIsDropped` says
  that nothing behind those words is read, so that nothing there is an error either.
- `shelllab/tsh_helper.c` lets `add_job` return 0 when all 64 slots are taken, and the shell
  goes on without a job for the new child. `ShellTheorems.FullListAborts` is, for every n and
  p, a whole run that starts n background jobs and then stops the p-th: it aborts the shell
  if and only if p is above 64. `ShellTheorems.AbortsExactly` gives the exact conditions of
  every abort, and `ShellTheorems.HandlerKnowsPid` says of which children the handler knows
  no job.
- `cprogramminglab-handout/queue.c` leaves the tail pointer at the removed node when a queue
  becomes empty. `StringQueue.Queue.InsertHead` is correct if and only if the queue was
  nonempty or its tail pointer null, and `StringQueue.StaleTail` builds the bad case.
- `cprogramminglab-handout/queue.c` subtracts 1 from the unsigned buffer size, so a size of
  0 cuts nothing: `StringQueue.CopiedWithin` says that the promised limit is kept exactly for
  the other sizes.
- `proxylab/proxy.c` initialises its mutex in every new thread, which frees it. Exclusion
  holds along a run if and only if no thread gets the lock while another is inside
  (`Proxy.ExclusionExactly`), and the mutex sees to that as long as no thread starts while
  the lock is held: `Proxy.ProxySecureExactly` says that a run is of this orderly kind if and
  only if exclusion holds in all its states and no next locking could break it.
  `Proxy.DisorderOpens` finds in every other run the place where two threads can get
  inside; such a run can also pass without harm (`Proxy.DisorderMayPass`). `Proxy.TwoInside`
  is a run of two requests that puts both inside, and `Proxy.StartingCachesTwice` one that
  leaves a URI in the cache twice. The other theorems of `Proxy` are about the orderly runs.
- `proxylab/proxy.c` keeps the result of a read in an unsigned variable, so that a failed read
  asks for a copy of more bytes than there are. `Rio.SendResponseToClient` and
  `Rio.ForwardFresh` say exactly for which streams that happens, in terms of how the reads
  will go before the call.
- `shelllab/tsh.c` waits for its foreground job until the job list shows it gone or stopped.
  `ShellWakeup.WakesUpExactly` says when that ends: it does once the child no longer runs,
  unless a child that was never listed has stopped too, whose report ends the shell instead.

## Model

| member | source | states |
|---|---|---|
| Lru.BlockSplit | cachelab/csim.c:122-137 | tag and set index together determine the block address |
| Lru.BlockJoin | cachelab/csim.c:122-137 | every pair of a tag and a set index is that of some block |
| Lru.BlockHolds | cachelab/csim.c:250-251 | a block is exactly the run of 2^b addresses that starts at its number times that size, so that the bytes counted are the bytes of its addresses |
| Lru.TagAndSet | cachelab/csim.c:122-137 | tag and set index are quotient and remainder of the block number by the number of sets |
| CacheSim.AddressSplit | cachelab/csim.c:122-137 | the shift and mask expressions of the code yield the tag and the set index of the block an address lies in, for every 64-bit address |
| CacheSim.Cache.constructor | cachelab/csim.c:50-72 | a new cache has 2^s disjoint sets of E empty lines and stands for the empty abstract cache |
| CacheSim.Evict | cachelab/csim.c:77-87 | the first line among those with the smallest stamp, or line 0 if no stamp is below MIN |
| CacheSim.OldestIsLast | cachelab/csim.c:74-87 | in a full well-formed set the line with the smallest stamp is the last one of the recency order |
| CacheSim.AddLine | cachelab/csim.c:142-153 | overwrites exactly one line with a valid line of that tag, time and dirty flag |
| CacheSim.Scan | cachelab/csim.c:169-194 | the scan with its early break finds the tag if and only if the represented list holds it, and otherwise the first empty line |
| CacheSim.HitRefines | cachelab/csim.c:174-186 | restamping the hit line keeps the set well formed and is a move to the front of the list |
| CacheSim.FillRefines | cachelab/csim.c:198-202 | filling the first empty line keeps the valid lines a prefix and is a push onto the list |
| CacheSim.EvictRefines | cachelab/csim.c:204-216 | overwriting the oldest line is a push that drops the last element of the list |
| CacheSim.RunAccess | cachelab/csim.c:158-218 | one access keeps the cache well formed and changes lines and counters exactly as one step of the abstract LRU cache |
| CacheSim.DirtyInCache | cachelab/csim.c:91-101 | the block size times the number of dirty lines of the represented sets |
| CacheSim.Simulate | cachelab/csim.c:158-218 | the reported numbers: hits are the reuses within stack distance E of the trace, hits plus misses its length, misses the evictions plus the resident lines, dirty bytes evicted plus dirty bytes cached B times the accesses that made a line dirty |
| LruTheory.LruIsTopOfRecency | cachelab/csim.c:158-218 | after any trace every set holds exactly the E most recently used blocks that map to it, in that order |
| LruTheory.DepthIsStackDistance | cachelab/csim.c:158-218 | the blocks above a block in the recency list are exactly the distinct blocks of its set used since |
| LruTheory.StackDistance | cachelab/csim.c:158-218 | an access hits if and only if its block was used before and fewer than E distinct other blocks of its set were used since |
| LruTheory.HitsAreReuses | cachelab/csim.c:177 | the hit counter of any run is the number of such accesses, counted from the trace alone |
| LruTheory.Inclusion | cachelab/csim.c:158-218 | with more lines per set every resident block stays resident and the number of hits does not fall |
| LruBalance.CountsBalance | cachelab/csim.c:160-206 | hits plus misses is the time is the length of the trace, and misses are evictions plus resident lines |
| LruBalance.BytesBalance | cachelab/csim.c:89-101 | dirty bytes evicted plus dirty bytes still cached is the block size times the number of accesses that made a clean or new line dirty |
| LruBalance.DirtyIffStoredSinceLoad | cachelab/csim.c:147-186 | a resident line is dirty if and only if it was stored to since the miss that last loaded it |
| LruBalance.TagsDistinct | cachelab/csim.c:171-194 | no set ever holds a tag twice |
| JobTable.JobList.constructor | shelllab/tsh_helper.c:258-266 | the list starts with 64 undefined slots and next jid 1 |
| JobTable.JobList.FindMaxJid | shelllab/tsh_helper.c:286-293 | the largest jid of a live slot, 0 if none |
| JobTable.JobList.FindFgJob | shelllab/tsh_helper.c:420-434 | the first foreground slot, 0 if none |
| JobTable.JobList.FindJobFromPid | shelllab/tsh_helper.c:440-461 | the first live slot of that pid, 0 for a pid below 1 or without a job |
| JobTable.JobList.Add | shelllab/tsh_helper.c:339-390 | aborts exactly when the specification does, and otherwise leaves exactly the specified table and returns the specified jid |
| JobTable.JobList.Delete | shelllab/tsh_helper.c:398-414 | leaves exactly the specified table and returns whether the job existed |
| JobTable.JobList.ChangeState | shelllab/tsh_helper.c:479-486 | aborts exactly when the specification does, and otherwise leaves exactly the specified table |
| JobTable.FreeAbove | shelllab/tsh_helper.c:367-368 | in a well-formed table every slot from nextjid on is undefined, so the assertion on the new slot holds |
| JobTable.AddJobAdds | shelllab/tsh_helper.c:339-390 | adding a new pid keeps the table well formed and never aborts when no second foreground job is asked for; exactly that pid gets the state, or with the list full nothing changes and 0 is returned |
| JobTable.DeleteJobDeletes | shelllab/tsh_helper.c:398-414 | deleting the job of a pid keeps the table well formed with nextjid one past the largest live jid, and changes no other pid |
| JobTable.SetStateSets | shelllab/tsh_helper.c:309-333 | aborts if and only if the pid has no job or a second foreground job is asked for; otherwise only that pid changes |
| JobTable.OneForeground | shelllab/tsh_helper.c:420-434 | a pid in the foreground is the one the lookup finds |
| JobTable.AddJobRecords | shelllab/tsh_helper.c:339-390 | for a pid without a job: aborts if and only if pid or state is invalid or a second foreground job is asked for; otherwise exactly that pid gets a job with the next jid, the state and the command line |
| JobTable.DeleteJobForgets | shelllab/tsh_helper.c:398-414 | the job of that pid is gone, and every other job is as it was, jid and command line included |
| JobTable.SetStateKeepsRest | shelllab/tsh_helper.c:479-486 | the job keeps its jid and command line, and every other job is as it was |
| JobTable.JidNamesJob | shelllab/tsh_helper.c:299-307 | a jid exists if and only if some pid has a job of that jid, and then it is the one in its slot |
| ShellSafety.StepKeepsInv | shelllab/tsh.c:195-620 | every step of the shell, of its handlers and of the kernel keeps the invariant on masks, handler frames, job list and children |
| ShellSafety.RunKeepsInv | shelllab/tsh.c:195-620 | the invariant holds after every run, whatever the interleaving |
| ShellSafety.MainKeepsJobs | shelllab/tsh.c:223-269 | the steps of the read and eval loop keep the job list a mirror of the unreaped children |
| ShellSafety.HandlerKeepsJobs | shelllab/tsh.c:514-537 | so does every step of the handlers |
| ShellSafety.KernelKeepsChildren | shelllab/tsh.c:517-537 | deliveries of one pending SIGCHLD bit and the movements of children never lose an unreported child |
| ShellTheorems.NoLostWakeup | shelllab/tsh.c:260-268 | whenever the shell is suspended there is a foreground job, and its child runs or SIGCHLD can be delivered at once |
| ShellWakeup.WakesUpExactly | shelllab/tsh.c:260-269 | from every reachable suspended state: some run of the shell's own steps (taking SIGCHLD, handler, loop) ends at the prompt if and only if the foreground child does not run and no child that was never listed has an unreported stop |
| ShellWakeup.Drains | shelllab/tsh.c:517-537 | the drain loop of the handler ends, with every stop and death reported and written down |
| ShellWakeup.EndOfJobWakes | shelllab/tsh.c:260-269 | while the shell waits for a running job, that job can stop or end at any time, and the shell can then come back to its prompt by itself if there are no unlisted stops |
| ShellCommands.CommandStarts | shelllab/tsh.c:230-269 | from every reachable prompt: reading a command, forking and adding leave a job of exactly the state and line asked for; a foreground command is waited for, and a background one leads back to the prompt; with the list full the child is unlisted and nothing is waited for |
| ShellCommands.JobContinues | shelllab/tsh.c:409-484 | bg and fg on an existing job: its child runs again if it was stopped, the job is in the state asked for and otherwise unchanged, fg waits for exactly that job and bg returns to the prompt |
| ShellCommands.NoSuchJob | shelllab/tsh.c:419-429 | a jid that does not exist changes nothing |
| ShellCommands.UnknownPidAborts | shelllab/tsh.c:432-477 | bg and fg with a pid that has no job end the shell |
| ShellCommands.FailedForkAborts | shelllab/tsh.c:230-253 | a failed fork ends the shell |
| ShellCommands.KeyGetsThrough | shelllab/tsh.c:551-620 | at the prompt and while the shell waits, a keyboard signal is handled at once: its handler finds no job, or the child that is waited for, and afterwards the shell is where it was |
| ShellTheorems.NothingForgotten | shelllab/tsh.c:517-537 | a stop or exit not yet reported has SIGCHLD pending or a handler that will call waitpid again |
| ShellTheorems.JobsMirrorChildren | shelllab/tsh.c:226-268 | outside the window between fork and add_job, and between rounds of the drain loop, a pid has a job if and only if it is a listed unreaped child |
| ShellTheorems.ReapedIsGone | shelllab/tsh.c:517-528 | no job outlives its reaping except in the hands of the handler that reaped it |
| ShellTheorems.HandlerKnowsPid | shelllab/tsh.c:517-536 | whenever the SIGCHLD handler works on a report, its lookup finds a job if and only if the child was listed when it was started |
| ShellTheorems.WaitedPidIsKnown | shelllab/tsh.c:517-522 | the same of every child that waitpid can report |
| ShellTheorems.ForegroundIsUnique | shelllab/tsh_helper.c:325-332 | at most one job is in the foreground in every reachable state, and the table is well formed |
| ShellTheorems.PromptHasNoForeground | shelllab/tsh.c:260-268 | no job is in the foreground while the shell is at the prompt |
| ShellTheorems.StatesTellTheTruth | shelllab/tsh.c:530-536 | a job shown as stopped does not run unless another process continued a child, and a reported stop is always shown |
| ShellTheorems.JobListAccessIsMasked | shelllab/tsh.c:217-227 | every step that touches the job list has all three signals blocked |
| ShellTheorems.KillHitsOwnChild | shelllab/tsh.c:568-575 | the keyboard handlers signal only a child that has not been reaped |
| ShellTheorems.AbortsExactly | shelllab/tsh_helper.c:309-356 | the step machine aborts if and only if a failed fork is added, bg or fg works on a pid without a job, or a child that was never listed stops |
| ShellTheorems.ReasonableRunsAreSafe | shelllab/tsh.c:195-620 | a run whose forks succeed, whose list never overflows and whose bg and fg name existing jobs never aborts and lists every child |
| ShellTheorems.ReasonableShellIsSafe | shelllab/tsh.c:195-620 | the same of every such run from the start of the shell, and its handler never meets a pid without a job |
| ShellTheorems.FullListAborts | shelllab/tsh_helper.c:358-365 | for every n and p up to n: the run that starts n background jobs with successful forks and then stops the p-th child can happen, and it aborts the shell if and only if p is above 64 |
| ParseLine.Run | shelllab/tsh_helper.c:43-178 | for every line: the status is that of the grammar, and argv, infile and outfile point into the buffer at exactly the strings of the grammar; argc stays below MAXARGS |
| ParseLine.Tokenize | shelllab/tsh_helper.c:70-144 | the loop, scanning the very buffer it cuts, finds exactly what the grammar finds in the line the buffer held at first, and fails exactly on an open quote or a repeated redirection |
| ParseLine.TakeToken | shelllab/tsh_helper.c:73-144 | one round on the buffer is one round on the line, and leaves what is still to be read untouched |
| ParseLine.FindWord | shelllab/tsh_helper.c:100-116 | the word found in the buffer is the word of the line, with its quotes; an open quote is noticed exactly when the line has one |
| ParseLine.CStrIsRest | shelllab/tsh_helper.c:75-106 | in a buffer cut up to some place, the string from there on is the rest of the line, whatever NULs stand before |
| ParseLine.RoundIsScan | shelllab/tsh_helper.c:73-144 | one round of the loop, in positions, is one step of the grammar on the rest of the line |
| ParseLine.Finish | shelllab/tsh_helper.c:151-177 | terminates the list, compares the first word with the four names character by character, and strips the background marker as the grammar says |
| ParseLine.Equals | shelllab/tsh_helper.c:158-166 | true if and only if the string in the buffer is the name |
| ParseLine.CopyLine | shelllab/tsh_helper.c:59-60 | the buffer holds the line as far as it fits 1023 characters, and NULs behind it |
| ParseRoundTrip.ScanOn | shelllab/tsh_helper.c:73-144 | scanning gets through printed words and redirections, whatever the white space, and goes on behind them whatever comes there, or stops at 127 words |
| ParseRoundTrip.ScanPrinted | shelllab/tsh_helper.c:73-144 | scanning a printed line gathers its words and redirections, whatever the white space |
| ParseRoundTrip.RoundTrip | shelllab/tsh_helper.c:43-178 | a printed command parses back to the same argv, files, kind of job and built-in name (`quit`, `jobs`, `bg`, `fg` or none) if and only if it is a background job or its last word does not begin with an ampersand |
| ParseRoundTrip.QuotedAmpersandIsLost | shelllab/tsh_helper.c:172-174 | a command whose only argument is a quoted ampersand loses it and goes to the background |
| ParseRoundTrip.OpenQuoteIsError | shelllab/tsh_helper.c:109-116 | a quote left open behind any printed words is an error |
| ParseRoundTrip.SecondFileIsError | shelllab/tsh_helper.c:80-97 | so is a second redirection of one kind, whatever follows |
| ParseRoundTrip.NoFileIsError | shelllab/tsh_helper.c:146-149 | so is a redirection without a file name |
| ParseRoundTrip.RestIsDropped | shelllab/tsh_helper.c:139-141 | behind 127 words nothing is read |
| ParseRoundTrip.LongLineIsCut | shelllab/tsh_helper.c:59-60 | only the first 1023 characters of a line count |
| Eval.Decide | shelllab/tsh.c:195-230 | what the code does with status and record is what the parse of the line asks for |
| Eval.PrintedIsDecided | shelllab/tsh.c:195-350 | a printed command asks for what its first word says: one of the four built-in commands, or a program, in the background exactly when the command is |
| Eval.TypedProgramRuns | shelllab/tsh.c:195-269 | from the line typed at a reachable prompt to the job list: the program gets a job under that line, and the shell waits for it exactly when the line did not end in an ampersand |
| Eval.NumbersName | shelllab/tsh.c:416-435 | `%` and decimal digits name a jid, digits alone a pid, for every number |
| Eval.UnclearExactly | shelllab/tsh.c:418-448 | bg or fg goes on with a number never set if and only if its argument, behind `%` or alone, is white space |
| Eval.NoNumberIsMisuse | shelllab/tsh.c:437-448 | white space, at most one sign and then no digit: a message and nothing else |
| WebCache.Cache.constructor | proxylab/cache.c:37-42 | an empty cache with the whole budget free |
| WebCache.Cache.SearchCache | proxylab/cache.c:54-64 | the first node of the list for the URI, or null |
| WebCache.Cache.ReadResponse | proxylab/cache.c:77-85 | copies the stored bytes and changes nothing but the age of that entry |
| WebCache.Cache.EvictAge | proxylab/cache.c:150-163 | the node of the least age below MIN, or null |
| WebCache.Cache.RemoveFromCache | proxylab/cache.c:177-215 | the list stays doubly linked without exactly that node, and its bytes are free again |
| WebCache.Cache.FreeUp | proxylab/cache.c:106-112 | the eviction loop ends with the specified contents and enough room |
| WebCache.Cache.AddToCache | proxylab/cache.c:102-138 | terminates and leaves a well-formed list holding exactly the specified entries |
| WebCacheModel.MakeRoomIsShortestCut | proxylab/cache.c:106-112 | eviction removes exactly the shortest oldest-first run of entries that makes the object fit, and keeps every other entry as it was, in order |
| WebCacheModel.AddedKeeps | proxylab/cache.c:102-138 | after an addition the new entry is first, the rest is what the shortest eviction leaves, and URIs and ages stay distinct and every byte accounted for |
| WebCacheModel.TouchedKeeps | proxylab/cache.c:77-85 | a read with a later time keeps the cache consistent |
| WebCacheModel.TouchedIs | proxylab/cache.c:77-85 | a read entry keeps URI and bytes, its age is the new clock and above every other, and nothing else changes |
| WebCacheModel.MakeRoomKeeps | proxylab/cache.c:106-112 | eviction keeps the cache consistent and only removes entries |
| ProxySections.Server.LookUp | proxylab/proxy.c:169-182 | a hit advances the clock, stamps the entry and copies its bytes; a miss changes nothing |
| ProxySteps.LookUpIsSteps | proxylab/proxy.c:169-182 | what the first section leaves is what the steps search and read of a thread lead to, and nothing else of the state changes |
| ProxySections.Server.Insert | proxylab/proxy.c:195-207 | adds the response under the advanced clock exactly when the second search still finds nothing |
| ProxySteps.InsertIsSteps | proxylab/proxy.c:195-207 | what the second section leaves is what the steps search and add of a thread lead to |
| ProxySteps.ForwardedIsConfirmed | proxylab/proxy.c:192-196 | a thread asks for the lock a second time if and only if forwarding ended with a size, and goes on with exactly the bytes kept |
| Proxy.StepKeepsInv | proxylab/proxy.c:147-212 | every orderly step of any thread keeps lock, cache and the knowledge of all threads consistent |
| Proxy.RunKeepsInv | proxylab/proxy.c:147-212 | so does every orderly run of any number of threads |
| Proxy.MutualExclusion | proxylab/proxy.c:169-206 | at most one thread is between lock and unlock |
| Proxy.CacheIsConsistent | proxylab/proxy.c:169-207 | in every reachable state no URI is cached twice, ages are distinct and at most the clock, and free space plus stored bytes is the budget |
| Proxy.RepliesAreGenuine | proxylab/proxy.c:171-205 | everything cached and every reply from the cache is byte for byte a response an origin gave for that URI, and fits the response buffer |
| Proxy.LockHolderMoves | proxylab/proxy.c:169-206 | the thread holding the lock always has a next step while the clock is below MIN |
| ProxyRuns.ThreadMoves | proxylab/proxy.c:147-212 | a thread that is not done has a next step unless it waits for the lock, while the clock is below MIN |
| ProxyRuns.RequestIsServed | proxylab/proxy.c:169-186 | with the lock free, a request is answered with the stored bytes, without asking the origin, if and only if its URI is cached, and goes on to the origin if and only if it is not |
| ProxyRuns.ResponseIsKept | proxylab/proxy.c:186-210 | a response is added, first in the list and behind the shortest eviction, if and only if it is of 1 to 102400 bytes and its URI is not cached by then; in the other cases the cache stays as it is |
| ProxyLru.AgeIsLastUse | proxylab/proxy.c:173-204 | in every reachable state the age of an entry is the clock right after the last hit on its URI, or its addition |
| ProxyLru.EvictsLeastRecentlyUsed | proxylab/cache.c:106-112 | in every orderly run, whatever an addition evicts was last used before whatever it keeps |
| Proxy.ExclusionExactly | proxylab/proxy.c:164-206 | along any run, orderly or not, at most one thread is inside in every state if and only if no thread gets the lock while another is inside |
| Proxy.StepSecureExactly | proxylab/proxy.c:164-206 | in every state of an orderly run and for every possible step: at most one thread is inside afterwards, and after any further locking, if and only if the step does not start a thread while the lock is held |
| Proxy.ProxySecureExactly | proxylab/proxy.c:164-206 | for every run of the proxy: no thread starts while the lock is held if and only if in all states exclusion holds and no next locking can break it |
| Proxy.DisorderOpens | proxylab/proxy.c:164-169 | every run in which a thread starts while the lock is held has a prefix that one locking extends to two threads inside |
| Proxy.StartingBreaksExclusion | proxylab/proxy.c:164-169 | from any state of an orderly run with the lock held, a request and a locking put two threads between lock and unlock |
| Proxy.TwoInside | proxylab/proxy.c:164-169 | two requests that put two threads between lock and unlock |
| Proxy.DisorderMayPass | proxylab/proxy.c:164-185 | a run with a start while the lock is held in which exclusion holds all the same |
| Proxy.StartingCachesTwice | proxylab/proxy.c:164-206 | three requests, one of which starts while the lock is held, after which a URI is cached twice, with whatever two responses the origin gave |
| Rio.Reader.Refill | proxylab/csapp.c:485-498 | refills an empty buffer through any number of interruptions without losing or inventing bytes; after -1 nothing could have been read, and otherwise every later request fails exactly if it would have failed before |
| Rio.Reader.ReadSome | proxylab/csapp.c:482-509 | delivers a prefix of what is pending, and what remains pending is the rest; -1 if and only if a read fails before the first byte or the end of file |
| Rio.Reader.ReadN | proxylab/csapp.c:523-538 | however the reads split the stream, the smaller of n and what is left, and exactly those bytes; -1 if and only if a read fails before n bytes have come or the end of file |
| Rio.Reader.ReadLine | proxylab/csapp.c:543-567 | however the reads split the stream, the line at its front, and a NUL after it; -1 if and only if a read fails before the line is complete |
| Rio.LineLengthIs | proxylab/csapp.c:548-566 | the shortest prefix that ends in a newline if it fits maxlen - 1 bytes, else as much as cap and stream allow |
| Rio.SendResponseToClient | proxylab/proxy.c:227-254 | forwards every byte in order, and ends with size the length of a response that fits MAX_OBJECT_SIZE with its bytes copied, and 0 otherwise; it runs past the buffer if and only if a read fails before the whole response and its end have been seen, and has then forwarded a prefix |
| Rio.ForwardFresh | proxylab/proxy.c:227-254 | on a new connection the length of the response and the outcomes of the reads to come decide it: it crashes if the first read fails, and never if none does |
| Rio.EofReadsIs | proxylab/proxy.c:237-253 | forwarding sees the end of file once if the length is a multiple of MAX_OBJECT_SIZE, and else twice |
| Rio.ReliableNeverFails | proxylab/csapp.c:485-498 | a stream with no failing read fails no request, whatever its interruptions |
| StringQueue.Queue.constructor | cprogramminglab-handout/queue.c:23-31 | an empty queue with a null tail |
| StringQueue.Queue.InsertHead | cprogramminglab-handout/queue.c:58-92 | puts the string first; the queue is well formed afterwards if and only if it was nonempty or its tail pointer null |
| StringQueue.Queue.InsertTail | cprogramminglab-handout/queue.c:96-136 | puts the string last, whatever the tail pointer of an empty queue |
| StringQueue.Queue.RemoveHead | cprogramminglab-handout/queue.c:141-168 | removes the first element, copies its string cut to the buffer with a NUL and nothing behind it, and leaves the tail pointer alone |
| StringQueue.CopiedWithin | cprogramminglab-handout/queue.c:150-160 | the copy and its NUL stay within the buffer size if and only if that is not 0; a size of 0 copies the whole string |
| StringQueue.Queue.Reverse | cprogramminglab-handout/queue.c:178-207 | relinks the very same nodes in the opposite order, without new ones, and exchanges head and tail |
| StringQueue.StaleTail | cprogramminglab-handout/queue.c:146-148 | a queue emptied by removal and then given an element at its head is not well formed |
| Sampler.Samples.constructor | malloclab/fcyc.c:48-60 | no samples yet |
| Sampler.Samples.AddSample | malloclab/fcyc.c:63-88 | after any sequence of samples the array holds the best of them |
| Sampler.BestIsSmallest | malloclab/fcyc.c:63-88 | the best are sorted, are min(k, n) of the samples as a multiset, and no other sample is smaller than any of them |
| Sampler.BestSnoc | malloclab/fcyc.c:66-75 | keeping only the k best so far loses nothing: the code's three cases give the best of one more sample |
| Transpose.Trans | cachelab/trans.c:119-133 | B is the transpose of A, for all dimensions |
| Transpose.TransTmp | cachelab/trans.c:142-160 | the same through the scratch square, which is all of the scratch array it touches |
| Transpose.TransposeSquare | cachelab/trans.c:75-95 | the blocked kernel with the parked diagonal transposes, for all dimensions that are multiples of 8 |
| Transpose.TransposeSubmit | cachelab/trans.c:54-71 | B is the transpose of A, for all dimensions |
| Transpose.IsTranspose | cachelab/trans.c:185-197 | answers true if and only if B is the transpose of A |
| FloatRounding.FloatUnsigned2Float | datalab-handout/bits.c:488-531 | for every unsigned u the result is a finite non-negative pattern at least as near to u as any pattern, even on ties, and exact up to 24 bits |
| FloatRounding.RoundFraction | datalab-handout/bits.c:506-522 | guard, round and sticky masks round the kept bits to nearest even, with the carry into the exponent |
| FloatRounding.LeadingOne | datalab-handout/bits.c:499-503 | the loop finds the exponent e with 2^e <= u < 2^(e+1) |
| FloatRounding.RoundedCase | datalab-handout/bits.c:506-522 | rounding the kept bits by that rule is nearest even among all finite patterns, of every binade |
| FloatRounding.RoundingIsUnique | datalab-handout/bits.c:479-481 | only one non-negative pattern satisfies that specification |
| FloatRounding.LargerPatternLargerValue | datalab-handout/bits.c:530 | non-negative patterns are ordered like the values they stand for |
| FloatBits.FloatScale4 | datalab-handout/bits.c:446-475 | for a finite argument exactly four times its value with its sign, or, exactly when every finite pattern is below that product, the infinity of its sign; NaN, infinities and zeros come back unchanged |
| FloatBits.SmallSubnormalScales | datalab-handout/bits.c:470-471 | a shifted subnormal fraction that runs into the exponent field still means four times the value |
| Masks.BuildMasks | datalab-handout/bits.c:336-342 | the chain of shifts, ors and exclusive ors yields all six masks: bit j of the mask for width w is set if and only if j lies in the lower half of its group of 2w |
| Masks.NextMask | datalab-handout/bits.c:338-342 | shift and exclusive or turn the mask for any width into that for half of it |
| BitCount.BitCount | datalab-handout/bits.c:333-351 | the six masked additions yield the number of ones of any 64-bit word |
| BitCount.StageKeepsSum | datalab-handout/bits.c:344-350 | one stage, for any group width, halves the number of digits and keeps their sum, with the sign bits shifted in masked out and without overflow |
| BitCount.CountBits | datalab-handout/tests.c:103-109 | the loop over the bits gives the same number |
| BitMirror.IsPalindrome | datalab-handout/bits.c:362-383 | the answer is 1 if bit i equals bit 63 - i for every i, and 0 otherwise |
| BitMirror.ExchangeMoves | datalab-handout/bits.c:374-380 | one line of the reversal moves every bit to its partner place and loses none |
| BitMirror.Reverse | datalab-handout/bits.c:374-380 | after the six lines bit i is bit 63 - i of the argument |
| BitMirror.IntegerLog2 | datalab-handout/bits.c:394-404 | for positive x, 2^r <= x < 2^(r+1) |
| LongArithmetic.TrueThreeFourths | datalab-handout/bits.c:310-322 | three fourths of x rounded toward zero for every x, with no overflow |
| LongArithmetic.DividePower2 | datalab-handout/bits.c:252-260 | x divided by 2^n rounded toward zero for every x and every n up to 62 |

## Left out

- Proxy.MutualExclusion: is about runs in which no thread starts while the lock is held, because `proxylab/proxy.c:165` initialises the mutex again in every thread; `Proxy.ExclusionExactly` is about all runs, and `Proxy.DisorderOpens` says how each of the others can lose exclusion. What POSIX leaves undefined about initialising a mutex twice is modelled as the mutex becoming free.
- CacheSim.RunAccess: needs E of at least 1, the geometry limits of the address arithmetic (s + b below 64, s at most 31), and fewer than MIN accesses so far, which `cachelab/csim.c:74-76` names as its own limit; counters and the block size are mathematical integers.
- Proxy.LockHolderMoves: needs the clock below MIN. Beyond it the eviction loop of `proxylab/cache.c:107-112` may find nothing to evict and never ends; such an addition is not a step of the model.
- Shell model: `jobs`, `quit`, redirection and exec in the child, and the message output are not steps; SIGCONT reaches the job as soon as it is sent, so the time before a new child has its own process group is not modelled. Continuation by other processes is modelled.
- ParseLine.Run: null argument pointers are modelled for the line only; the verbose messages are left out.
- Rio.SendResponseToClient: says nothing of what the copy past the end of the buffer does after a failed read, beyond that it happens. Writes to the client are taken to succeed.
- ShellWakeup.WakesUpExactly: is about what the shell does by itself, so SIGCHLD is the only signal delivered in the runs it speaks of.
- Eval.NumbersName: numbers are mathematical integers; what `sscanf` does with one that does not fit an int is not modelled.
- Rio.Reader.ReadLine: the caller's buffer has room for at least the NUL.
- StringQueue.Queue.RemoveHead: the caller's buffer has room for what is copied, which for a size of 0 is the whole string. Null queues and failing allocations are left out, and the byte-by-byte copies of the inserted strings are taken as one step.
- Transpose.TransposeSquare: other dimensions are left out, since the code then accesses elements outside the matrices.
- Transpose.IsTranspose: compares elements by equality, which for floating-point NaN is not what the C operator does. Cache miss counts of the kernels are not modelled.
- Sampler.Samples.AddSample: samples are real numbers; the convergence test and the kept sample log are left out.
- Memory release, allocation failures, option parsing, trace files, sockets, request parsing and header building are left out.
- The allocator `malloclab/mm-naive.c`, the drivers that time and grade the labs, and seven puzzles of `datalab-handout/bits.c` (`bitMatch`, `copyLSB`, `distinctNegation`, `leastBitPos`, `conditional`, `isLessOrEqual`, `floatIsEqual`) are not part of this model.
