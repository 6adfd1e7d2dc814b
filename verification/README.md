# Verified models of the FakeAtop monitor and the Sudoku solver

This project models the stateful cores of the atop code under `Qt/FakeAtop`, and the solver under `Qt/Solver`, and
proves what they keep, over all inputs and over all interleavings.

- **Shadow accounting files.** `ShadowProtocol.dfy` is a step system: one daemon (`atopacctd`) that cuts a stream of
  accounting records into numbered files and removes old ones, and any number of clients. Each system call that
  another process can see is one action; a list of actions is one interleaving. `ShadowSafety.dfy` proves what every
  run guarantees, `ShadowClients.dfy` what a client's calls change. `ShadowSchedule.dfy` says what the daemon's functions
  do when clients make calls between their system calls, and when the reset after the last client is safe from them.
  `ShadowDaemon.dfy` is the daemon's code with its statics as fields: it does just that, and its batches, collections
  and clean resets are walks through the step system. `ShadowReader.dfy` is the client's code, with an arbitrary
  schedule of everybody else's actions before each of its system calls. `ShadowCases.dfy` holds runs into the moments
  at which things go wrong.
- **Private accounting.** `PrivateAccounting.dfy`: monitors that share one accounting file under a mutex and a counting
  semaphore, one system call at a time. `PrivateRuns.dfy`: how a monitor gets in, out and through a restart whatever the
  others do, which records it passes, and how everything can come to a standstill.
- **Process database and deviation pass.** `ProcDb.dfy` is the linked structure: 256 hash chains with a cyclic doubly
  linked residue list through the same nodes. `ProcDbModel.dfy` relates it to a map by (pid, isproc).
  `Deviation.dfy` is the pass over values and its mark-and-sweep theorem, `Activity.dfy` the meaning of the activity
  counters and of wrap-around differences, `TaskReports.dfy` what the reports say of one task over its whole life, from
  pass to pass, and `DeviateTasks.dfy` the pass itself on the linked database.
- **Views.** `ThreadZip.dfy`: threads listed behind their processes; `ZipAfterPass.dfy`: the same for what a deviation
  pass reports. `Grouping.dfy`: processes accumulated per user, program or container. `Interfaces.dfy`: network
  interfaces paired by name.
- **Raw log browser.** `RawLog.dfy`: the list of record offsets behind next, previous, reset and branch, refined by a
  plain cursor.
- **Column fitting.** `Columns.dfy`: which columns stay and how the blanks are shared out.
- **Sudoku.** `Sudoku.dfy`: candidates, counters and the deduction rules.

Where the source updates things in place, so does the model: fields, arrays and links are assigned in loops, and each
method is proved against a function or predicate about which the promised properties are then proved.

## What was found in the code

- `acctprocnt` is short when it catches `current` between truncation and writing; what it then returns is right exactly
  for a reader in the file before the newest (`ShadowCases.CountWhileWiped`, `ShadowCases.ShortCount`).
- `acctrepos` needs a file to arrive in. It is missing when a client skips to the very end while the newest file is
  full and its successor not yet made (`ShadowCases.FullWithoutSuccessor` reaches that moment); the client may then find
  itself at the start of the newest file again (`ShadowReader.Reader.AcctRepos`). A skip that leaves a record to read
  never gets there.
- `noverflow * acctrecsz` is a 32-bit product: skips of 2^26 records and more are cut (`ShadowReader.WrappedSkip`).
- `rawread` shows the last sample when no sample reaches the begin time (`RawLog.Prints`), passes over the sample on
  the screen when a branch names its own time, takes a branch to midnight for no time at all (`RawLog.BranchLands`),
  and never returns from a log without samples (`RawLog.Browser.Pass`).
- `getspacings` takes the grown width of a removed growing column off a sum in which it was never counted. It may then
  keep too much (`Columns.StaleWidthOverflows`; `Columns.FitsExactlyWhen` says for which lists the choice of columns is
  right). Even with the right choice it hands the same width out as blanks (`Columns.RightButTooLong`): a line of fixed
  columns fits if and only if no growing column of the list brought a width (`Columns.LineIsFull`). It also looks for
  the column to grow in the list before the removals (`Columns.GrownTooFarBack`). With no priority below 999999 left,
  the search yields index -1 (`Columns.Line.FindLowest`).
- Zipping threads behind processes writes past the list when a process is still listed while its exit record comes in the
  same sample: two entries in a row then carry one tgid (`ZipAfterPass.ExitOverruns`; `ThreadZip.ZipBound` says exactly
  when the list is long enough).
- After the last client `awaitprocterm` resets the files without looking at the semaphore again. A client that attaches
  meanwhile may be left with a removed file, or stop the removal (`ShadowSchedule.LateAttach`, and
  `ShadowCases.AttachDuringReset` from the daemon's start). The reset is safe from this exactly when the newest file is
  empty (`ShadowSchedule.ResetIsSafe`).
- The hundred and first monitor waits for a place on semaphore 1 while it holds the mutex, which everyone needs to
  give up a place: nobody gets in or out any more, until one is killed (`PrivateRuns.OneTooMany`,
  `PrivateRuns.Standstill`).
- A restart of private accounting loses the records of processes that exit between its test and the end of accounting
  (`PrivateAccounting.RestartLoses`, and `PrivateRuns.RestartLosesOne` for a run).
- `checkCell` stores the index of the last candidate, one less than the digit: the tables stay right exactly when there
  was nothing to store (`Sudoku.Solver.CheckCell`), and the next sweep may lose every solution (`Sudoku.LoseSolutions`).

## Model

| member | source | states |
|---|---|---|
| ShadowProtocol.ReceiveKeeps | Qt/FakeAtop/atopacctd.c:667-715 | accepting a batch, cutting it at the end of the current file, or resetting after the last client, keeps the invariant of files, stream, counter, clients and history |
| ShadowProtocol.PassFirstKeeps | Qt/FakeAtop/atopacctd.c:703-740 | writing or skipping the first part of a batch keeps the invariant: only a file that is exactly full is left behind |
| ShadowProtocol.CreateKeeps | Qt/FakeAtop/atopacctd.c:733-741 | a new file appears behind a full one, while 'current' still names the old one |
| ShadowProtocol.PublishingKeeps | Qt/FakeAtop/atopacctd.c:964-1000 | truncating and rewriting 'current' keep the invariant |
| ShadowProtocol.PassRestKeeps | Qt/FakeAtop/atopacctd.c:741-753 | the rest of the batch, written or skipped, leaves a newest file that is not full |
| ShadowProtocol.TestOldestKeeps | Qt/FakeAtop/atopacctd.c:930-950 | the collector's lock test succeeds only on a file below every client's |
| ShadowProtocol.RemovingKeeps | Qt/FakeAtop/atopacctd.c:943-956 | releasing the test lock and removing the oldest file leave every file of a client in place |
| ShadowProtocol.ClientKeeps | Qt/FakeAtop/acctproc.c:254-323 | a client's claim, attach, lock of the next file, release and exit keep the invariant; the semaphore counts the clients |
| ShadowProtocol.ApplyKeeps | Qt/FakeAtop/atopacctd.c:667-753 | every action of anybody keeps the invariant |
| ShadowProtocol.RunKeeps | Qt/FakeAtop/atopacctd.c:425-447 | every run, that is every interleaving, keeps the invariant |
| ShadowSafety.CollectorSafety | Qt/FakeAtop/atopacctd.c:930-957 | in every run exactly the files from the oldest to the newest exist, those below the newest are full, and a client's own file and all later ones are among them |
| ShadowSafety.LockNeverRefused | Qt/FakeAtop/acctproc.c:1005-1020 | in every run the collector's lock never makes a client's lock request fail: the next file can be locked exactly when it exists |
| ShadowClients.CallIsPrivate | Qt/FakeAtop/acctproc.c:262-338 | a call of a client changes its own entry and the semaphore, and no other client, file or 'current' |
| ShadowClients.ComesIn | Qt/FakeAtop/acctproc.c:262-326 | a client comes in if and only if the semaphore has room, and then has the newest file locked if and only if that holds a record ('current' being written) |
| ShadowClients.MovesOn | Qt/FakeAtop/acctproc.c:991-1040 | a client that goes on has the next file locked before it gives up its own, and keeps its own if there is no next |
| ShadowClients.CloseUnlocks | Qt/FakeAtop/acctproc.c:633-637 | after a client has closed its file, exactly what others lock is locked |
| ShadowClients.ClosedAndGone | Qt/FakeAtop/acctproc.c:633-637 | closing and exiting takes the client off the table and gives its place on the semaphore back |
| ShadowClients.VisitLeavesNothing | Qt/FakeAtop/acctproc.c:262-337 | coming in and going away again leaves everything as it was |
| ShadowSafety.AttachedMeansNoReset | Qt/FakeAtop/atopacctd.c:667-694 | while a client is attached, files are removed only below it and the stream only grows |
| ShadowSafety.HeldFilesSurvive | Qt/FakeAtop/atopacctd.c:930-957 | no step by anybody removes or shortens a file that a client holds, or a later one |
| ShadowSafety.OthersRunEvolves | Qt/FakeAtop/acctproc.c:990-1031 | whatever the others do, a client sees its own locks unchanged and its stream extended |
| ShadowSafety.FileOf | Qt/FakeAtop/atopacctd.c:703-741 | each existing file is its own slice of the stream |
| ShadowSafety.ConcatFrom | Qt/FakeAtop/atopacctd.c:698-753 | the files from any existing one on, put together, are the stream from there |
| ShadowSafety.WriterUnderPressure | Qt/FakeAtop/atopacctd.c:703-836 | whatever writes are skipped for lack of space, the files hold the offered records in order with exactly the dropped ones left out, and between batches the daemon's counter is the size of the newest file, which is not full |
| ShadowSafety.NothingDropped | Qt/FakeAtop/atopacctd.c:787-836 | runs without a skipped write drop nothing |
| ShadowSafety.WriterStream | Qt/FakeAtop/atopacctd.c:698-753 | without skipped writes the existing files are exactly the offered records from the oldest file on |
| ShadowDaemon.ShadowWriter.constructor | Qt/FakeAtop/atopacctd.c:358-359 | file 0 is made and published |
| ShadowDaemon.ShadowWriter.CreateShadow | Qt/FakeAtop/atopacctd.c:760-785 | an empty file, open under the daemon's descriptor number |
| ShadowDaemon.ShadowWriter.SetCurrent | Qt/FakeAtop/atopacctd.c:963-1000 | 'current' names the new file; truncating and writing it are two steps, with the scheduled calls in between |
| ShadowDaemon.ShadowWriter.Pass2Shadow | Qt/FakeAtop/atopacctd.c:787-836 | all records or none go to the open file, and the number returned makes the caller's counter agree |
| ShadowDaemon.ShadowWriter.ClientsAct | Qt/FakeAtop/atopacctd.c:497-957 | the clients make exactly the calls scheduled for this gap, in order, as actions of the step system; no file and no 'current' changes |
| ShadowDaemon.ShadowWriter.RemoveOldestFile | Qt/FakeAtop/atopacctd.c:950-956 | closing and unlinking are two steps, each with the calls that are scheduled then |
| ShadowDaemon.ShadowWriter.TryOldest | Qt/FakeAtop/atopacctd.c:932-956 | the oldest file goes exactly if it exists and is not locked when it is tested |
| ShadowDaemon.ShadowWriter.GcShadows | Qt/FakeAtop/atopacctd.c:916-957 | for any schedule of client calls the loop does what `Swept` says: the oldest files go up to the first that is missing, the limit, or locked when its turn comes |
| ShadowDaemon.ShadowWriter.CollectGarbage | Qt/FakeAtop/atopacctd.c:440-444 | a collection equals a run of the step system in which the daemon's actions are exactly a collection and the clients do anything in between; it ends at a locked file or the newest |
| ShadowDaemon.ShadowWriter.MakeZero | Qt/FakeAtop/atopacctd.c:678-687 | the counters start again and file 0 is made |
| ShadowDaemon.ShadowWriter.StartAtZero | Qt/FakeAtop/atopacctd.c:678-691 | file 0 is made and published, with the scheduled calls in between |
| ShadowDaemon.ShadowWriter.StartAfresh | Qt/FakeAtop/atopacctd.c:672-691 | for any schedule of client calls the reset does what `Restarted` says |
| ShadowDaemon.ShadowWriter.Accept | Qt/FakeAtop/atopacctd.c:696-732 | with clients a batch is accepted and cut where the current file is full |
| ShadowDaemon.ShadowWriter.FillCurrent | Qt/FakeAtop/atopacctd.c:703-740 | what fits goes to the current file; the rest is lost unless that file is full now |
| ShadowDaemon.ShadowWriter.MakeNext | Qt/FakeAtop/atopacctd.c:738-740 | the next file is made before anybody is told of it |
| ShadowDaemon.ShadowWriter.NextShadow | Qt/FakeAtop/atopacctd.c:738-745 | the next file is made, then published, with clients in between |
| ShadowDaemon.ShadowWriter.FillNext | Qt/FakeAtop/atopacctd.c:747-754 | the rest of the batch, if there is any, goes to the new file |
| ShadowDaemon.ShadowWriter.Transfer | Qt/FakeAtop/atopacctd.c:696-756 | the code for one batch equals a run of the step system in which the daemon's actions are exactly those of the batch and clients do anything in between, in both cases of each write |
| ShadowDaemon.ShadowWriter.AwaitProcTerm | Qt/FakeAtop/atopacctd.c:497-757 | a round of the main loop is a run in which the daemon's actions are exactly those of a batch, and keeps the invariant, unless it resets the files while a client is able to attach and tries; a reset does what `Restarted` says |
| ShadowSchedule.CollectRun | Qt/FakeAtop/atopacctd.c:930-957 | the actions of a collection remove exactly the files up to the first in use |
| ShadowSchedule.SweptKeeps | Qt/FakeAtop/atopacctd.c:930-957 | whatever clients do, only the oldest files go, up to the first that is locked, missing or the limit |
| ShadowSchedule.SweptAlone | Qt/FakeAtop/atopacctd.c:930-957 | when clients do nothing, none of the files that go was locked |
| ShadowSchedule.SweptIsRun | Qt/FakeAtop/atopacctd.c:930-957 | below the newest file the loop with any client calls is a walk of the step system's collector |
| ShadowSchedule.CleanReset | Qt/FakeAtop/atopacctd.c:667-694 | when the newest file is empty, or nobody tries to attach, the reset with any other client calls is the step system's reset followed by those calls, in order, and keeps the invariant |
| ShadowSchedule.EarlyAttach | Qt/FakeAtop/atopacctd.c:930-956 | a client that tries to attach to the only file while the collector still holds its test lock is refused, and all files go |
| ShadowSchedule.LateAttach | Qt/FakeAtop/atopacctd.c:672-691 | from any state with a record in the newest file: a client that attaches between the test of the oldest file and its removal holds the newest file to the end, and the invariant is lost |
| ShadowSchedule.ResetIsSafe | Qt/FakeAtop/atopacctd.c:667-694 | the reset keeps the invariant whatever clients do meanwhile if and only if the newest file is empty |
| ShadowSchedule.BatchWithoutClients | Qt/FakeAtop/atopacctd.c:667-694 | without clients a batch is dropped, and resets the files if they were in use |
| ShadowReader.Kernel.Lock | Qt/FakeAtop/acctproc.c:1005-1015 | the read lock on the next file is granted whenever that file exists, whatever happens before |
| ShadowReader.Kernel.CloseOld | Qt/FakeAtop/acctproc.c:1017-1024 | closing releases the lock on the old file and no other |
| ShadowReader.Reader.constructor | Qt/FakeAtop/acctproc.c:254-323 | a client attaches at the end of the published file, with one lock |
| ShadowReader.Reader.AcctProcCnt | Qt/FakeAtop/acctproc.c:647-725 | with anything happening between its observations, the count is at most what is ahead on return and at least what was ahead at the call, unless 'current' was caught empty; without interference it is exact |
| ShadowReader.Reader.SwitchShadow | Qt/FakeAtop/acctproc.c:990-1031 | the next file is locked before the old one is released, and the switch succeeds exactly when there is a next file |
| ShadowReader.Reader.AcctRepos | Qt/FakeAtop/acctproc.c:750-770 | a skip arrives where reading the records one by one would have arrived, over any number of files, if the file to arrive in exists or is made in time; otherwise the reader is at the start of the file before it |
| ShadowReader.Reader.SkipLeavingSome | Qt/FakeAtop/acctproc.c:758-770 | a skip that leaves a record to read always has a file to arrive in |
| ShadowReader.Reader.NextFile | Qt/FakeAtop/acctproc.c:810-828 | at the end of a full file the reader goes on at the start of the next, the same stream position |
| ShadowReader.Reader.NextRecord | Qt/FakeAtop/acctproc.c:830-889 | the record read is the one at the reader's stream position |
| ShadowReader.Reader.AcctPhotoProc | Qt/FakeAtop/acctproc.c:787-896 | n records that are ahead are delivered in order across files, none twice, none missed |
| ShadowReader.Reader.Sample | Qt/FakeAtop/acctproc.c:647-896 | count, skip what does not fit, read the rest: the skipped and the delivered records are consecutive, and cover what was there at the call unless 'current' was found empty |
| ShadowReader.Reader.Session | Qt/FakeAtop/acctproc.c:647-1031 | over any number of samples the delivered records and the skipped intervals lie one behind the other in the stream, whatever the daemon, its collector and other clients do; if 'current' was found empty in fewer samples than there were and no skip was cut, they cover all that was ahead at the start |
| ShadowReader.ReplayIsStream | Qt/FakeAtop/acctproc.c:758-889 | skipped intervals and delivered records, put together in order, are the stream from the first to the last position |
| ShadowReader.WrappedSkip | Qt/FakeAtop/acctproc.c:760-761 | the 32-bit product is the wanted one exactly below 2^26 records |
| ShadowReader.OwnCount | Qt/FakeAtop/acctproc.c:669-676 | the own file alone counts all records ahead unless it is full |
| ShadowReader.FarCount | Qt/FakeAtop/acctproc.c:706-722 | full files in between and the size of a later file count all records ahead, or everything up to its end |
| ShadowReader.SkipTarget | Qt/FakeAtop/acctproc.c:758-769 | division and modulo lead to the right position; the file there exists unless the skip ends at the end of a full newest file |
| ShadowCases.CountWhileWiped | Qt/FakeAtop/acctproc.c:688-697 | with 'current' empty the count of the own file is never too large, and exact if and only if the reader is in the file before the newest |
| ShadowCases.ShortCount | Qt/FakeAtop/acctproc.c:688-697 | from the start of the daemon into the moment between truncation and writing of 'current' with two full files: a client that attached behind the first batch counts 9750 of the 19750 records ahead |
| ShadowCases.FullWithoutSuccessor | Qt/FakeAtop/atopacctd.c:725-741 | a run into a full newest file without successor, with an attached client |
| ShadowCases.AttachDuringReset | Qt/FakeAtop/atopacctd.c:667-694 | calls of the daemon's code from its start at the end of which a client holds a file that has been removed |
| PrivateAccounting.EveryRun | Qt/FakeAtop/acctproc.c:398-480 | over all interleavings semaphore 1 plus the users is 100, and with the mutex free the kernel records to the file exactly while there are users |
| PrivateAccounting.OnlyWhenAlone | Qt/FakeAtop/acctproc.c:580-631 | accounting is switched on only for the first user or by the only one, the file removed only without users, truncated only for a sole user |
| PrivateAccounting.NeverBeyondTheEnd | Qt/FakeAtop/acctproc.c:906-966 | no monitor ever stands beyond the end of the file |
| PrivateAccounting.RestartLoses | Qt/FakeAtop/acctproc.c:922-957 | in every interleaving of a restart the truncation loses exactly the records of processes that exited between the test and the end of accounting |
| PrivateAccounting.ApplyKeeps | Qt/FakeAtop/acctproc.c:398-631 | every system call of every monitor keeps mutex, count, file and offset invariants |
| PrivateRuns.Enters | Qt/FakeAtop/acctproc.c:398-480 | a monitor that starts with the mutex free and a place left gets in with its next system calls, whatever others do in between: the counter is one lower, the mutex free, accounting on, and a file that others use untouched |
| PrivateRuns.FileOnEntry | Qt/FakeAtop/acctproc.c:404-480 | the first user finds in its file exactly the records of the processes that exited after the file was made, any other what was there and what has been recorded since |
| PrivateRuns.BecomesActive | Qt/FakeAtop/acctproc.c:485-546 | it then stands at the end of a file that is not empty |
| PrivateRuns.Leaves | Qt/FakeAtop/acctproc.c:566-637 | a monitor that stops with the mutex free gets out with its next system calls, whatever others do in between: the counter is one higher, the mutex free, and accounting off and the file gone exactly if it was the only user |
| PrivateRuns.Restarts | Qt/FakeAtop/acctproc.c:922-966 | a restart that has the mutex comes to its end, whatever others do in between: the only user then stands at the start of the file, with other users nothing has changed |
| PrivateRuns.PassesAll | Qt/FakeAtop/acctproc.c:773-889 | between start, restart and stop the records that a monitor reads and skips are the consecutive ones from where it stood to where it stands |
| PrivateRuns.SkipsOrReads | Qt/FakeAtop/acctproc.c:773-889 | any number of the counted records can be skipped; a read takes exactly one record, if there is one |
| PrivateRuns.OneTooMany | Qt/FakeAtop/acctproc.c:404-480 | when all places are taken, one more monitor that starts never gets in and keeps every other from getting out, in every continuation |
| PrivateRuns.Standstill | Qt/FakeAtop/acctproc.c:404-480 | a run from the start into that, with a hundred and one monitors |
| PrivateRuns.RestartLosesOne | Qt/FakeAtop/acctproc.c:922-957 | a run from the start in which the only monitor restarts and a record that nobody has read is truncated |
| ProcDb.Unlink | Qt/FakeAtop/procdbase.c:124-131 | taking a node out of the cyclic list leaves a cyclic list of the others |
| ProcDb.LinkAfterFirst | Qt/FakeAtop/procdbase.c:260-264 | chaining a node in behind the anchor gives a cyclic list with it in second place |
| ProcDb.CutOut | Qt/FakeAtop/procdbase.c:172-208 | taking a node out of its hash chain changes one link and leaves all chains as they were otherwise |
| ProcDb.Database.constructor | Qt/FakeAtop/procdbase.c:81-85 | an empty database with an empty residue list |
| ProcDb.Database.GetTask | Qt/FakeAtop/procdbase.c:92-146 | finds the first node of the bucket with the key and a start time at most a second off, or there is none; a found node is residue no more |
| ProcDb.Database.AddTask | Qt/FakeAtop/procdbase.c:150-160 | the node is in front of the chain of its pid, everything else stays |
| ProcDb.Database.Drop | Qt/FakeAtop/procdbase.c:172-218 | one node leaves its chain and the residue list |
| ProcDb.Database.DelTask | Qt/FakeAtop/procdbase.c:163-225 | succeeds exactly if the key exists; the first node with it leaves its chain and the residue list |
| ProcDb.Database.MakeResidue | Qt/FakeAtop/procdbase.c:235-274 | whatever the links were, afterwards every node is in the cyclic residue list once, last chained first |
| ProcDb.Database.CleanResidue | Qt/FakeAtop/procdbase.c:280-302 | with unique keys exactly the residue is deleted and the list is empty |
| ProcDb.Database.SrchResidue | Qt/FakeAtop/procdbase.c:309-364 | the first residue node of that user, group and name with the exact start time, or else the first that is a second off, or none is that close |
| ProcDbModel.Found | Qt/FakeAtop/procdbase.c:100-146 | a node that matches is what a lookup in the map finds |
| ProcDbModel.NotFound | Qt/FakeAtop/procdbase.c:100-146 | without a matching node the lookup in the map fails |
| ProcDbModel.ModelWith | Qt/FakeAtop/procdbase.c:150-160 | adding a node adds its key to the map |
| ProcDbModel.ModelWithout | Qt/FakeAtop/procdbase.c:163-225 | deleting a node deletes its key from the map |
| ProcDbModel.ModelSwept | Qt/FakeAtop/procdbase.c:280-302 | cleaning the residue removes exactly its keys from the map |
| ProcDbModel.SetStat | Qt/FakeAtop/deviate.c:305-308 | overwriting a node's figures keeps the structure and updates the map at its key |
| Deviation.Mark | Qt/FakeAtop/deviate.c:226-375 | after the present tasks the database holds them with their current sample, and the residue is what was not seen |
| Deviation.Match | Qt/FakeAtop/deviate.c:390-501 | the exit records take exactly the tasks they match out of database and residue |
| Deviation.MarkAndSweep | Qt/FakeAtop/deviate.c:226-501 | after a pass without pid reuse the database holds exactly the present tasks without those an exit record matched, each with the current sample, and no residue |
| Activity.ActivityCounts | Qt/FakeAtop/deviate.c:254-443 | the counters are the true numbers of processes, active processes and active tasks in the result, and a process is inactive only if all its threads are |
| Activity.OneInterval | Qt/FakeAtop/deviate.c:1621-1628 | a counter seen in 32 bits that grows by less than 2^32 deviates by its growth |
| Activity.IntervalModulo | Qt/FakeAtop/deviate.c:1621-1628 | in general the growth modulo 2^32 is seen, the growth itself if and only if it is below 2^32 |
| Activity.Telescoping | Qt/FakeAtop/deviate.c:1346-1354 | accumulated over any run of samples the deviations are the true growth, however often the counter wrapped |
| TaskReports.EntryIsAbout | Qt/FakeAtop/deviate.c:535-657 | entry i of a report has the identity, command line, thread counts and levels of present task i, is marked new if and only if the database did not know the task, shows no more cpu than was used in all (but a tick), and no negative number of packets after a counter was reset |
| TaskReports.EntryShows | Qt/FakeAtop/deviate.c:535-657 | what every figure of an entry shows for any values of its counter: the growth, with 32 bits put back if it fell, one tick if that is more cpu than was used in all, and the value itself for a network counter that started over |
| TaskReports.RoundReports | Qt/FakeAtop/deviate.c:282-375 | the entry of a task shows what each of its counters grew by since the figures that the database held |
| TaskReports.RoundLeaves | Qt/FakeAtop/deviate.c:226-501 | a round leaves a database, in which a task that was present and not matched has its current sample |
| TaskReports.ReportsAddUp | Qt/FakeAtop/deviate.c:226-375 | over any run of rounds, each starting from the database that the round before left, the entries of a task that stays add up to what its counter grew by, whatever was known of it before |
| TaskReports.ReportedOnce | Qt/FakeAtop/deviate.c:226-375 | a task unknown at the start has every tick, fault, transfer and growth reported exactly once: the entries add up to its last sample |
| TaskReports.MatchIsThatTask | Qt/FakeAtop/deviate.c:404-433 | with its pid an exit record is matched with the task of that pid, without with a task of the same user, group and name that was known before the interval and is present no more; either started within a second of it |
| TaskReports.MatchedValue | Qt/FakeAtop/deviate.c:404-433 | what an exit record is matched with holds the sample of this round, or what the database held before it |
| TaskReports.ExitEntryIsAbout | Qt/FakeAtop/deviate.c:400-490 | the entry of an exit record has the identity, state, start time and thread counts of the record, its pid or else that of the match, the command line of the match, the mark of a new process if and only if there is no match, and no figures but those that the record continues |
| TaskReports.ReportedUpToExit | Qt/FakeAtop/deviate.c:404-433 | the entries before the exit record add up to what the match holds |
| TaskReports.ReportedToTheEnd | Qt/FakeAtop/deviate.c:452-472 | with the entry of its exit record, all reports of a task over its rounds add up to what the record says, or to the last sample if that saw more |
| TaskReports.TransfersToTheEnd | Qt/FakeAtop/deviate.c:474-477 | over the rounds and the exit entry, reads and writes together add up to the one number of transfers in the exit record, or to the last samples if those saw more |
| Activity.StateTotals | Qt/FakeAtop/deviate.c:260-276 | the totals by state are the threads of the present processes that are no zombies, and the number of those that are |
| DeviateTasks.RememberTask | Qt/FakeAtop/deviate.c:282-366 | yields the previous figures that a map would yield and stores the current ones |
| DeviateTasks.FindExited | Qt/FakeAtop/deviate.c:404-433 | the task that an exit record means: by key, or among the residue, or none for a process that started in the interval |
| DeviateTasks.ForgetTask | Qt/FakeAtop/deviate.c:404-500 | the matched task leaves the database as it leaves the map |
| DeviateTasks.DevTStat.ReportTask | Qt/FakeAtop/deviate.c:254-375 | one entry and its counters, as the pass over values has them |
| DeviateTasks.DevTStat.ReportExited | Qt/FakeAtop/deviate.c:400-500 | one entry of an exited process and its counters |
| DeviateTasks.DevTStat.FillLists | Qt/FakeAtop/deviate.c:506-528 | both lists are filled exactly to their allocated size with the places of the processes and of the active ones, in order |
| DeviateTasks.PassPresent | Qt/FakeAtop/deviate.c:254-375 | the first loop on the linked database equals the pass over values |
| DeviateTasks.PassExits | Qt/FakeAtop/deviate.c:390-500 | the second loop does, for the matches that the database search finds |
| DeviateTasks.PassSweeps | Qt/FakeAtop/deviate.c:226-501 | the map that a pass leaves is what mark and sweep should leave, ready for the next pass |
| DeviateTasks.DeviatTask | Qt/FakeAtop/deviate.c:201-529 | the whole pass reports what the pass over values reports, leaves its database (the present tasks without those an exit record matched, each with its current sample), an empty residue list and no node with a residue link; the caller's entries say whether their task changed |
| ThreadZip.ScanFrom | Qt/FakeAtop/showgeneric.c:944-966 | scanning on behind a process finds exactly the tasks to be shown that carry its tgid without a gap, in order |
| ThreadZip.ZipLists | Qt/FakeAtop/showgeneric.c:938-967 | when no process overruns, every listed process and each of its shown threads is in the zipped list exactly once, and nothing else |
| ThreadZip.ZipSize | Qt/FakeAtop/showgeneric.c:908-929 | when no process overruns, the list needs no more than its allocated size, whatever processes have been selected |
| ThreadZip.ZipBound | Qt/FakeAtop/showgeneric.c:908-967 | with every process listed and no active thread under an inactive process, the allocated size is enough if and only if no process overruns, and is then used up |
| ThreadZip.DistinctNeverOverrun | Qt/FakeAtop/showgeneric.c:944-949 | nothing overruns when no two processes share a nonzero tgid |
| ThreadZip.ZipProcess | Qt/FakeAtop/showgeneric.c:940-966 | the inner loop appends a process and its shown threads |
| ThreadZip.ZipThreads | Qt/FakeAtop/showgeneric.c:931-973 | the loop fills the array with the zipped list, within its bounds whenever that list fits |
| ZipAfterPass.ZipFits | Qt/FakeAtop/showgeneric.c:908-967 | after a deviation pass, and however its list of processes was sorted, the zipped list fits the number of tasks that the pass counted if and only if no process overruns, and then has exactly that many entries |
| ZipAfterPass.ReportedAsIncoming | Qt/FakeAtop/deviate.c:254-443 | which tasks will be shown as active can be said beforehand: those that the database does not know as they are, the processes of such threads, and all exit records |
| ZipAfterPass.ChangesFromStart | Qt/FakeAtop/deviate.c:282-306 | with different keys the database at the start tells which present tasks changed |
| ZipAfterPass.ZipFitsInput | Qt/FakeAtop/showgeneric.c:908-967 | the same said of the tasks that come in, for all and for active tasks only: the list fits if and only if nothing overruns among the present tasks, marked as the database tells, followed by the exit records; with all tasks shown the marks do not matter; and it fits and is filled when their processes have tgids of their own |
| ZipAfterPass.ExitOverruns | Qt/FakeAtop/showgeneric.c:938-966 | a process that is still listed when its exit record comes: two tasks are counted and three entries written |
| Grouping.SortedIsAdjacent | Qt/FakeAtop/showlinux.c:2148-2174 | sorting by uid, name or container puts the processes of a group side by side |
| Grouping.GroupsAreKeys | Qt/FakeAtop/showgeneric.c:2201-2224 | when groups stand together there is one entry per key, the accumulation of exactly its group |
| Grouping.CumConserves | Qt/FakeAtop/showgeneric.c:2321-2375 | in any order the figures of all entries add up to those of all processes |
| Grouping.EntryShowsGroup | Qt/FakeAtop/showgeneric.c:2321-2375 | an entry shows the sum of its group in every figure |
| Grouping.GroupsOfSorted | Qt/FakeAtop/showgeneric.c:2188-2230 | accumulating a sorted permutation gives, for the processes in their original order, one entry per key with the size, the sums and the memory percentage of its group, and the overall sums |
| Grouping.UnknownMemory | Qt/FakeAtop/showgeneric.c:2356-2364 | the memory percentage of an entry is -1 if and only if that of a living member is |
| Grouping.MemoryOfGroup | Qt/FakeAtop/showgeneric.c:2356-2370 | the memory percentage of an entry is the sum of those of its living members, or unknown if one of them is |
| Grouping.InsertKeepsOrder | Qt/FakeAtop/showgeneric.c:2196 | an insertion sort as the stand-in for qsort keeps its list sorted |
| Grouping.Cumulate | Qt/FakeAtop/showgeneric.c:2188-2315 | the cursor through the entries yields the accumulation of the selected processes, within the worst-case array, with all the totals above |
| Interfaces.Resync | Qt/FakeAtop/deviate.c:904-911 | the search from the front finds the name, or it is not there |
| Interfaces.FirstSample | Qt/FakeAtop/deviate.c:882-893 | with no interfaces known, those of now are entered with the blank counters |
| Interfaces.DeviatInterfaces | Qt/FakeAtop/deviate.c:895-971 | each interface gets, counter by counter, the difference to one of its name wherever that stood, or is copied when there was none; the walk never leaves the earlier list |
| Interfaces.PairedByName | Qt/FakeAtop/deviate.c:895-925 | with unique names the walk pairs as a search for each name would |
| Interfaces.DiffIsDeviation | Qt/FakeAtop/deviate.c:927-966 | a deviation is the present interface with each of its 16 counters compared with the same counter of the earlier one, and the earlier speed |
| RawLog.LastFlag | Qt/FakeAtop/rawlog.c:741-745 | the flag is on the last sample, and on the one before it if and only if a bare header follows |
| RawLog.Browser.constructor | Qt/FakeAtop/rawlog.c:579-594 | the offset list starts with the first offset, and the cursor at the first sample |
| RawLog.Browser.ReadHeader | Qt/FakeAtop/rawlog.c:598-619 | every read starts at a record; its offset is stored in bounds and the list grows before it is full |
| RawLog.Browser.Obey | Qt/FakeAtop/rawlog.c:755-777 | the command moves seek position and list as it moves the cursor |
| RawLog.Browser.StepBack | Qt/FakeAtop/rawlog.c:780-785 | at the end of the file the browser stands before the last sample |
| RawLog.Browser.Turn | Qt/FakeAtop/rawlog.c:598-778 | one turn of the inner loop skips, shows, stops or finds the end exactly as the cursor does |
| RawLog.Browser.Pass | Qt/FakeAtop/rawlog.c:596-786 | one turn of the outer loop keeps the frames still to come; without samples it changes nothing that is shown and goes on |
| RawLog.Browser.Browse | Qt/FakeAtop/rawlog.c:596-786 | for any commands the samples shown are those of the plain cursor |
| RawLog.StepsMoveByOne | Qt/FakeAtop/rawlog.c:755-785 | next shows the sample behind (the last one again at the end), previous the one before (the first again at the start), reset the first |
| RawLog.BranchLands | Qt/FakeAtop/rawlog.c:771-777 | a branch lands on the first sample that is not before the time, or the last, if and only if the time is neither midnight nor that of the sample on the screen (or that is the last and the right one) |
| RawLog.BranchPassesOver | Qt/FakeAtop/rawlog.c:771-777 | a log and a branch that passes over the sample it names |
| RawLog.Prints | Qt/FakeAtop/rawlog.c:596-639 | without a screen every sample from the begin time up to the end time is printed once, in order; if none reaches the begin time, the last one |
| RawLog.CommandsShow | Qt/FakeAtop/rawlog.c:596-786 | without an end time every command shows a sample, chosen from where the sample before and its command have led |
| RawLog.EndTimeCuts | Qt/FakeAtop/rawlog.c:634-639 | for any begin time and commands, the samples shown with an end time are those shown without, up to the first that is past it |
| RawLog.StopsAtEndTime | Qt/FakeAtop/rawlog.c:634-639 | no sample shown is past the end time, and the session stops with a command left if and only if the sample it would show is |
| Columns.KeptIsSelection | Qt/FakeAtop/showprocs.c:208-230 | the columns kept stand in their order, and none that was removed has a higher priority than one kept |
| Columns.FittingFits | Qt/FakeAtop/showprocs.c:204-208 | the right choice fits, and with the column removed last it would not |
| Columns.FitsExactlyWhen | Qt/FakeAtop/showprocs.c:208-230 | the columns kept fit with single blanks if and only if, going through the list by priority, no width of a removed growing column makes the rest seem to fit before it does |
| Columns.FitsUnlessFooled | Qt/FakeAtop/showprocs.c:208-230 | the same from any point of the removals on, with the widths wrongly taken off so far |
| Columns.FitsWhenRight | Qt/FakeAtop/showprocs.c:208-230 | fitting and being the right choice are the same |
| Columns.RightWithoutStaleWidths | Qt/FakeAtop/showprocs.c:222-224 | they are the right choice if growing columns bring no width of their own |
| Columns.StaleWidthOverflows | Qt/FakeAtop/showprocs.c:222-224 | a list for which the columns kept need 101 of 80 places |
| Columns.Line.GetTotWidth | Qt/FakeAtop/showprocs.c:142-158 | the list is copied with its end and measured |
| Columns.Line.FindLowest | Qt/FakeAtop/showprocs.c:210-220 | the first column of the lowest priority, or -1 if and only if no priority is below 999999 |
| Columns.Line.Remove | Qt/FakeAtop/showprocs.c:225-229 | the list without that column, still ended |
| Columns.Line.Shrink | Qt/FakeAtop/showprocs.c:208-230 | the removal loop ends with the columns of the recursive choice |
| Columns.Line.Spread | Qt/FakeAtop/showprocs.c:250-262 | each gap gets its proportion of the spare places cut to whole numbers, and together exactly all of them |
| Columns.Line.Grow | Qt/FakeAtop/showprocs.c:234-247 | single blanks, and the remaining places to the definitions that grow among the first of the original list, as many as were kept |
| Columns.Line.GetSpacings | Qt/FakeAtop/showprocs.c:173-263 | both together, with the special cases of one column and of growing columns, whose definitions get the places left if they stand among the first of the original list; two or more fixed columns and their blanks take the width of the line and the widths that growing columns brought |
| Columns.BelievedGap | Qt/FakeAtop/showprocs.c:204-224 | the width of the columns kept is underrated by the widths of the growing columns that were removed |
| Columns.LineIsFull | Qt/FakeAtop/showprocs.c:250-262 | a line of fixed columns and their blanks is too long by exactly the widths that growing columns of the original list brought: it fits, and is then full, if and only if they brought none |
| Columns.OneColumnFits | Qt/FakeAtop/showprocs.c:250-262 | a single fixed column that is left fits if and only if the right columns were kept |
| Columns.RightButTooLong | Qt/FakeAtop/showprocs.c:222-262 | a list for which the right columns are kept and the line takes 120 of 80 places |
| Columns.GrownLineIsFull | Qt/FakeAtop/showprocs.c:234-247 | a line with one growing column left that stands among the first of the original list is too long by the widths that other growing columns of the list brought, and full if and only if they brought none; if it stands further back, the line is full if and only if it already had the right width |
| Columns.OneGrowsWhenInFront | Qt/FakeAtop/showprocs.c:234-247 | with one growing column in the original list, the line is filled if and only if that column stands among the first there, or already had the right width |
| Columns.GrownTooFarBack | Qt/FakeAtop/showprocs.c:239-243 | a list whose growing column is passed over after a removal: 11 of 80 places are used |
| Columns.EvenBlanks | Qt/FakeAtop/showprocs.c:254-259 | no two gaps differ by more than one blank |
| Sudoku.Pigeonhole | Qt/Solver/solver.cpp:133-177 | nine different digits leave none out |
| Sudoku.Solver.constructor | Qt/Solver/solver.cpp:6-19 | no candidates, every cell open |
| Sudoku.Solver.Unit | Qt/Solver/solver.h:4 | a given digit becomes the only candidate of its cell |
| Sudoku.Solver.Start | Qt/Solver/solver.cpp:21-38 | the counters are right, and the candidates allow exactly the grids that agree with the givens |
| Sudoku.Solver.Erase | Qt/Solver/solver.cpp:91-93 | clearing one candidate moves the counters with the real numbers |
| Sudoku.Solver.ClearPeers | Qt/Solver/solver.cpp:84-121 | a fixed cell's digit is cleared from the open cells of its lines and its square, and nothing else |
| Sudoku.Solver.CheckPossible | Qt/Solver/solver.cpp:79-131 | in any tables, exactly the candidates taken by a fixed cell are cleared, the counters move with the real numbers, and a grid stays possible exactly if none of its digits is taken; when fixed cells carry their own candidate that is every solution |
| Sudoku.Solver.SingleIsForced | Qt/Solver/solver.cpp:142-161 | a candidate with no other place in a line is the digit of its cell in every solution |
| Sudoku.Solver.TrySingle | Qt/Solver/solver.cpp:141-170 | the cell loses its other candidates exactly when the candidate has no other place in one of its two lines |
| Sudoku.Solver.HiddenSingle | Qt/Solver/solver.cpp:133-177 | candidates only disappear, every solution stays, the counters stay right, and what had no other place at the start is alone in its cell or gone |
| Sudoku.Solver.CheckCell | Qt/Solver/solver.cpp:57-77 | the index of the candidate is stored; counters and fixed cells stay right if and only if no open cell had one candidate left; in every solution a stored cell is one too small |
| Sudoku.Solver.MisreadDigit | Qt/Solver/solver.cpp:68 | in each unit of a misread cell some cell has the stored digit in the solution, and loses it to the misread cell if and only if it is open |
| Sudoku.Solver.MisreadsLose | Qt/Solver/solver.cpp:68-121 | with misread cells a solution is lost in the next sweep if and only if one of them takes an open cell's digit |
| Sudoku.FirstRow | Qt/Solver/solver.h:4 | a puzzle that gives 1 to 8 in the first row |
| Sudoku.LoseSolutions | Qt/Solver/solver.cpp:57-131 | checkPossible, checkCell and checkPossible on that puzzle, which has a solution: afterwards none is possible |

## Left out

- Record sizes: the shadow files are counted in whole records, as the kernel writes them; partial records, and a source file that was reset, are not modelled.
- ShadowProtocol.ClientKeeps: attaching is one step, without the retries while 'current' is empty and the races inside it. A client that is killed without closing gives up its lock (Close) before the semaphore is raised (Exit); the opposite order, in which a reset could happen while its lock is still held, is not modelled.
- ShadowReader.Reader.constructor: the count that the version check makes on the way is taken to be the size of the file at that moment, for the same reason.
- ShadowDaemon.ShadowWriter.AwaitProcTerm: waiting on netlink, read failures and the truncation of a large source file are left out. After a reset during which a client attached the model says what the reset leaves, but the step system, which resets in one step, does not go on from there.
- Error paths of `acctswon` (failed open, wrong version), its search for the standard accounting files, and environment variables; system calls succeed.
- ShadowReader.Reader.Sample: that the delivered records cover everything is not promised when 'current' was caught empty, or for skips of 2^26 records and more, because the code does not do it.
- PrivateAccounting: manual redirection of accounting by an administrator, failing system calls, and monitors that are killed.
- DeviateTasks.DevTStat.ReportExited: the network figures that netatop knows of exited processes are not modelled.
- DeviateTasks.DeviatTask: pid reuse inside an interval is excluded, because the sweep deletes by key and may then hit the live node.
- Task figures: the fields that only get copied or that repeat another field's rule (scheduling, code sizes, udp and byte counts of the network) are not in the record; counters are unbounded, cut to 32 bits where the source relies on it.
- Grouping.Cumulate: `procsuppress` is an arbitrary predicate (regular expressions), and the list is not empty or has room for an entry, because the last entry is read even without processes.
- Columns.GrownLineIsFull: is about lines in which one growing column is left; the source defines only one that grows.
- Columns.Line.Spread: the double arithmetic is exact rational arithmetic; rounding of doubles is not modelled.
- RawLog.Browser.Browse: a log without samples is excluded, because the source then never returns; decompression, a log that grows while it is read, and truncated data behind a complete header are not modelled.
- RawLog.BranchLands: times of day ascend, so a log across midnight is not covered.
- Sudoku: `nakedPair` is empty in the source, `currentValue` prints; the result that `checkCell` leaves uninitialised is a parameter.
- Interfaces: the properties read from the driver; disks, volumes and containers, whose pairing in the source compares or indexes wrongly.
- Input from /proc, netlink and netatop, the screens, parseable output, atopsar, the other Qt and network exercises.
