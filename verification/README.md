# The client's data layer, modelled and proved

A Dafny model of how the XRootD client moves, cuts up, reassembles and deletes
remote bytes, and of the formats it reads on the way: ZIP directories and URLs.
`dafny verify dfyconfig.toml` checks all of it.

## What is modelled

- **Parallel transfer** (`Spans`, `Transfer`, `Download`, `OrderedStream`,
  `Finishing`, `LocalFile`). One worker owns each span of a file; a worker that loses its
  server resumes from its high-water mark; one count is shared. The workers run on
  threads, so the transfer is a state machine: a step is one worker taking a
  piece, landing part of it, counting it, losing its server, ending, failing, and
  so on, or the fan-out's halt. Statements are about every finite sequence of
  enabled steps. The same machine runs downloads (`pwrite` at an offset) and the
  ordered stream (wait for the cursor, write, advance it). `Finishing` proves that
  both can always finish.
- **Vector reads and writes** (`Batching`, `VectorRead`, `ReadV`, `VectorWrite`).
- **Reads and writes on one handle** (`Readahead`, `Remote`, `Pipeline`, `Writing`,
  `Upload`, `Checkpoint`). The readahead block and the re-opens that threads share
  are a second state machine; one thread's read, and every write, is a method.
- **The namespace** (`Removal`, `Walk`, `Glob`).
- **ZIP archives** (`Zip`, `ZipRecord`, `ZipEncode`, `ZipArchive`, `ZipMember`):
  sections 4.3.7, 4.3.12, 4.3.14, 4.3.15, 4.3.16 and 4.5.3 of PKWARE's APPNOTE.
- **URLs** (`Text`, `Percent`, `UrlPath`, `Query`, `Url`, `Address`):
  percent-encoding is that of section 2.1 of RFC 3986 over UTF-8.

`Bytes`, `Sets` and `Wrappers` hold what these share.

## What is taken for granted

The network is an environment that may do anything its contract allows.

- A reader yields non-empty, consecutive pieces of the file from the offset it was
  asked for, never more than asked, and may stop or fail at any point. Where a
  result needs it to stop early only at the end of the file, it says so.
- The remote file of a transfer, of a cached handle and of a vector read does not
  change meanwhile.
- A write that is acknowledged has been stored whole; one that fails may have
  stored any part of its bytes. `kXR_wait` stores nothing. A write split across two
  links is never acknowledged. A page write is stored whatever its checksums say,
  and the answer names at least the pages that were corrupted.
- A truncate or a removal that fails may have been carried out all the same: a
  request can expire after it was sent (`src/xrdclient/session/deadline.py:5-13`).
- A BEGIN that raises is taken not to have opened a checkpoint. A COMMIT or ROLLBACK
  that raises may have done anything.
- On a file opened to append the server puts written data behind what there is.
- A `pread` of the local source may be short.
- The server's journal restores, on rollback, the content at BEGIN together with
  any change made outside the journal since.
- A vector-read reply holds every segment asked for, short only at end of file, in
  any order that keeps segments at one offset in request order.
- `rmdir` does not follow a link at the end of its path and says "not empty" only
  of a directory that has an entry. Listings and stats may follow links. A listing
  that is answered holds every entry of the directory once. Any request may fail, and
  a request that fails or is refused is on record with the place it was for.
- A request of a handle that fails is counted as a failure of the file's, an answer
  that a page is corrupt where none was written as stray.

## Where the code and a wished-for property part ways

- The ordered stream relies on readers stopping early only at the end of the file,
  as they promise (`src/xrdclient/session/bulk.py:272-274`): a span that ends short
  returns normally and abandons nobody (`src/xrdclient/client/bulk.py:317-319`).
  With such readers no run in which nobody failed is ever stuck, however long the
  file is (`OrderedStream.TrueReadersNeverStick`). With readers that may stop
  anywhere, some run strands the workers for good if and only if the plan has a
  second span and it starts inside the file (`OrderedStream.StrandsExactlyWhen`).
- An upload counts a resent range whole, however little of it was read again
  (`src/xrdclient/client/bulk.py:724-726`). `Upload.ResentExactly` says, as an
  equivalence, when the destination is the source all the same; `Upload.ShortReread`
  is the least input where it is not.
- A caller that catches a failed operation inside a checkpoint and leaves the block
  cleanly commits what that operation left behind. `Checkpoint.CaughtFailures` says,
  for any number of failures anywhere, exactly when this cannot show;
  `Checkpoint.FirstChunkStays` and `Checkpoint.ExpiredTruncateStays` are inputs where
  it does.
- A ZIP64 locator at position 0 of the first read is passed over
  (`src/xrdclient/client/_zip.py:185`). `ZipArchive.LocatorBeyondStart` says when
  it stands there, `ZipArchive.ReadingUndoesWriting` says, as an equivalence, which
  archives are read back, and `ZipArchive.FullCommentUnread` gives those that are not.
- A rendered field name keeps its `=` (`src/xrdclient/url.py:41`, `316`), so an
  edited query whose names contain one does not decode to what was set.
  `Query.ReconciledDecodes` is the exact condition, `Query.EqualsInName` the
  failing family.
- `parse` undoes `str` for some URLs and not for others: a password without a
  username is dropped, a host such as `[x` swallows the port, `%2f` in an HTTP
  path comes back as `%2F`. `Url.ReadingUndoesWriting` is an equivalence.

## Model

| member | source | states |
|---|---|---|
| Spans.PlanIsWorthIt | src/xrdclient/client/bulk.py:117-126 | exactly as many connections as asked for (at least one) unless fewer cover the file in chunks, the size of a chunk being given; each beyond the first is there because the chunks of the others do not cover the file |
| Spans.SplitTiles | src/xrdclient/client/bulk.py:129-136 | the pieces of a non-empty file lie end to end, none is empty, there are at most `workers`; an empty file is one empty piece |
| Transfer.JobsTile | src/xrdclient/client/bulk.py:474-487 | the jobs of any plan tile the file exactly, at most one a worker |
| Transfer.PlanAccepted | src/xrdclient/client/bulk.py:474-487 | any plan the client makes is one the state machine runs |
| Transfer.StepInv | src/xrdclient/client/bulk.py:244-342 | every step of every worker keeps the invariant: workers stay in their own spans with chunk sizes between floor and start, the count is the sum of their progress, a download's landed bytes are the source's, a stream's output is the file up to its cursor |
| Transfer.ReachableInv | src/xrdclient/client/bulk.py:279-342 | so it holds in every state any run reaches |
| Download.CountIsExact | src/xrdclient/client/bulk.py:574-586 | once every job has returned the count is at most the planned size, and equal to it if and only if no span came back short |
| Download.DownloadIsFaithful | src/xrdclient/client/bulk.py:517-586 | if a download returns, the destination is the first `total` bytes of the source followed by whatever it held beyond them; that it can return is `Finishing.DownloadCanFinish` |
| Download.NothingWrittenTwice | src/xrdclient/client/bulk.py:298-342 | in any run, whatever is lost and resumed, no two `pwrite` calls cover a common byte |
| Download.CountOnlyGrows | src/xrdclient/client/bulk.py:244-253 | the shared count never falls along a run |
| Finishing.CanFinish | src/xrdclient/client/bulk.py:279-342 | in either mode, from every state a run reaches with nothing failed, cancelled or short, there is a run to all workers ended with the whole plan counted |
| Finishing.DownloadCanFinish | src/xrdclient/client/bulk.py:298-319 | from every state a download reaches with nothing failed, cancelled or short, losses and resumptions included, there is a run in which it returns, with the source at the destination |
| Finishing.LossIsSurvived | src/xrdclient/client/bulk.py:279-342 | between pieces the server can always be lost; that is counted, moves no other worker, and leaves a transfer that was healthy healthy |
| Finishing.FruitlessLosses | src/xrdclient/client/bulk.py:366-380 | after any number of losses in a row without progress a worker asks for its chunk halved as often, down to the floor, and holds its high-water mark |
| Finishing.RestartsCounted | src/xrdclient/client/bulk.py:574-586 | the restarts returned to the caller are the losses of the run |
| LocalFile.Descriptor.PWriteAll | src/xrdclient/client/bulk.py:425-432 | through writes that may be short, all of the view is landed, or the call fails with exactly a prefix landed; it fails only when a write makes no progress |
| OrderedStream.PrefixSafety | src/xrdclient/client/bulk.py:618-659 | in every run the writer has been given exactly the first `cursor` bytes of the file, no more than planned |
| OrderedStream.NothingAfterAbandon | src/xrdclient/client/bulk.py:635-659 | once the stream is abandoned, no step of any worker writes another byte |
| OrderedStream.StreamIsFaithful | src/xrdclient/client/bulk.py:618-672 | a stream that returns has handed over the whole file in order |
| OrderedStream.StuckExactlyWhenOrphaned | src/xrdclient/client/bulk.py:635-659 | in every state a run reaches before it is abandoned, all workers are blocked if and only if some are left, each holds a piece, and the earliest unfinished span has lost its worker |
| OrderedStream.NeverAllBlocked | src/xrdclient/client/bulk.py:643-659 | while nobody has failed and every span that ended short did so at the end of the file, some worker can move, whatever the file's length |
| OrderedStream.TrueReadersNeverStick | src/xrdclient/client/bulk.py:279-319 | in every run whose readers stop early only at the end of the file, with nobody failed, the workers are never all blocked |
| OrderedStream.StrandsExactlyWhen | src/xrdclient/client/bulk.py:317-319 | when readers may stop anywhere, a run that strands the workers with nobody failed exists if and only if there is a second span and it starts inside the file |
| OrderedStream.OneSpanNeverSticks | src/xrdclient/client/bulk.py:635-659 | with one span no run is ever stuck, whatever fails or stops |
| OrderedStream.StrandedForever | src/xrdclient/client/bulk.py:317-319 | a stream stuck with nobody having raised stays so along every run, cancels included |
| OrderedStream.EveryoneCanLeave | src/xrdclient/client/bulk.py:643-659 | after any failure there is a run in which every worker stops, waiters included, without another byte written |
| OrderedStream.HealthyCanFinish | src/xrdclient/client/bulk.py:635-659 | from any state in which nothing has gone wrong there is a run that finishes with the whole file written |
| Batching.Batches | src/xrdclient/client/_vector.py:186-197 | the items in order, none lost, repeated or moved; at most 1024 a batch, 2 MiB unless a single item is larger; each batch closed only because the next item did not fit |
| VectorRead.HeaderReads | src/xrdclient/client/_vector.py:79-89 | a packed element reads back as its length and offset |
| VectorRead.WalkAcceptsTilings | src/xrdclient/client/_vector.py:123-147 | a body is accepted if and only if segments, each behind the header that describes it, tile it exactly, and those are the segments yielded |
| VectorRead.Walk | src/xrdclient/client/_vector.py:123-147 | the walk with a position gives those segments, and says whether it reached the end |
| VectorRead.FramesRoundTrip | src/xrdclient/client/_vector.py:123-147 | walking undoes framing |
| VectorRead.AsAsked | src/xrdclient/client/_vector.py:96-111 | accepts exactly the replies that hold what was asked, in order; a difference is seen before a malformed reply that follows it |
| VectorRead.ByOffset | src/xrdclient/client/_vector.py:114-120 | files every segment under its offset in arrival order and nothing else; fails exactly when a reply is malformed |
| VectorRead.ClaimsBounded | src/xrdclient/client/_vector.py:150-163 | whatever the server sent, a claim that succeeds is one segment a range, none longer than asked |
| VectorRead.ClaimsExactly | src/xrdclient/client/_vector.py:150-163 | whatever the server sent, claiming with removal gives the n-th range at an offset the n-th segment sent there, or the last when there are fewer, and fails at the first range with none or one too long |
| VectorRead.ClaimsInOrder | src/xrdclient/client/_vector.py:150-163 | claiming in request order gives each range its own segment however many share an offset, although the last at an offset is never removed |
| VectorRead.ShortcutAgrees | src/xrdclient/client/_reading.py:316-326 | whenever the in-order path accepts, filing by offset gives the identical list without error |
| ReadV.CutJoins | src/xrdclient/client/_vector.py:166-183 | the windows of the pieces of a range, joined, are the window of the range |
| ReadV.AssemblesWindows | src/xrdclient/client/_vector.py:175-183 | with what was asked for on file, every range is assembled to exactly its window |
| ReadV.RepliesServe | src/xrdclient/client/_reading.py:328-334 | replies to separate requests, each in its own order, together file what all requests asked for |
| ReadV.BatchAcceptable | src/xrdclient/client/_vector.py:186-197 | every request sent is within 1024 elements and 2 MiB, every element within its ceiling and its fields |
| ReadV.Execute | src/xrdclient/client/_reading.py:299-314 | for any ranges, overlapping, repeated, longer than an element or past the end, the result is each range's slice of the file in request order, from any honest server |
| ReadV.Elements | src/xrdclient/client/_reading.py:316-326 | the same for ranges of one element, shortcut or not; from any server at all: a malformed reply is the error, otherwise each range has its own answer, none longer than asked, or the first that cannot have one is the error |
| Remote.PartlyAbsorbed | src/xrdclient/client/_writing.py:80-106 | whatever part of earlier attempts landed, one whole write leaves what a single write would |
| Remote.PageSettled | src/xrdclient/client/_writing.py:417-429 | a corrupt page sent again and found in order leaves only the other corrupt pages to mend |
| Writing.Handle.BindDataPath | src/xrdclient/client/_handle.py:178-195 | binds a path by hand once, and never makes a write split |
| Writing.Handle.Bulk | src/xrdclient/client/_handle.py:234-313 | one chunk, read or written, over a data path, split, or on the control link: a read gives the file's window and may go out naming a path it does not travel on, a write never does, whatever paths are bound, and leaves the file as after one write |
| Writing.Handle.EventWrite | src/xrdclient/client/_writing.py:247-267 | chunk by chunk, through the journal inside a checkpoint, the file is one overlay of the data, and the size hint is its high-water mark; it raises only if a request failed; on a handle opened to append nothing that was there changes |
| Writing.Handle.PlaneWrite | src/xrdclient/client/_writing.py:108-127 | with chunks in flight together and answered in any order: landed means the whole data is in place; declined or broken, some part of it, and broken only if a request failed |
| Writing.Handle.Write | src/xrdclient/client/_writing.py:80-106 | tried on the plane, a data path and the control link, the file is one overlay of the data at its offset; it fails only if a request did, with only bytes of that write changed; on a handle opened to append nothing that was there changes |
| Writing.Handle.PgWrite | src/xrdclient/client/_writing.py:390-429 | with corrupt pages sent again up to three times: done, the file is one overlay of the data, whatever was corrupted on the way; failed, nothing outside the write has changed; an open journal is never bypassed |
| Writing.Handle.PgRetry | src/xrdclient/client/_writing.py:417-429 | one corrupt page is sent again: given up only after three times, when a request fails, or when the answer names a place that is not in the write; taken, one corrupt page is mended and the others are as they were |
| Writing.Handle.Truncate | src/xrdclient/client/_writing.py:431-446 | resizes the file, or raises, only if the request failed, with the file resized or left alone; never bypasses an open journal, and sets the size hint exactly |
| VectorWrite.CutAllKeepsMeaning | src/xrdclient/client/_vector.py:214-221 | cutting every chunk changes neither the file that results, overlaps included, nor the total, nor the high-water mark |
| VectorWrite.BatchAcceptable | src/xrdclient/client/_vector.py:223-234 | every vector write sent respects the element, byte and count ceilings |
| VectorWrite.BreaksOff | src/xrdclient/client/_writing.py:284-293 | a request that fails leaves the elements of all earlier ones applied in order |
| VectorWrite.WriteV | src/xrdclient/client/_writing.py:273-294 | the file is the chunks applied in order, the returned total and the size hint are exact; if a request fails, and only then, those before it have been applied and only bytes of its own chunks have changed; inside a checkpoint it is refused and changes nothing |
| Checkpoint.StreamSerially | src/xrdclient/client/_writing.py:230-245 | pieces one acknowledged write at a time are one overlay of their concatenation, and the count is its length |
| Checkpoint.Perform | src/xrdclient/client/_writing.py:68-78 | inside a checkpoint no operation changes what a rollback restores; accepted it is applied, refused it does nothing, failed it leaves at most what its request could have done; a clone and a vector write of any chunk are refused, and nothing else is |
| Checkpoint.Block | src/xrdclient/client/file.py:86-117 | for every sequence of operations and an exception after any number of them, none included: a block that raises is rolled back and never committed, one that does not is committed and never rolled back, unless BEGIN, COMMIT or ROLLBACK itself failed; rolled back, the content is exactly that at BEGIN; committed, it is what the operations made of it one after another, and, if no failure can show, what the accepted ones give when applied directly; checkpoints do not nest |
| Checkpoint.HiddenIsTaken | src/xrdclient/client/file.py:86-117 | a block none of whose failures can show leaves what the accepted operations give |
| Checkpoint.NoneFailedHidden | src/xrdclient/client/file.py:86-117 | with no failure there is none to show |
| Checkpoint.CaughtFailures | src/xrdclient/client/file.py:104-117 | with any number of failures that the caller catches, anywhere: the content is at every moment what the accepted operations give, whatever the failures left, if and only if none of them can show |
| Checkpoint.FirstChunkStays | src/xrdclient/client/_writing.py:257-265 | a two-chunk write whose second chunk fails leaves the first to be committed |
| Checkpoint.ExpiredTruncateStays | src/xrdclient/client/_writing.py:431-435 | a truncate that expires after it was sent and is carried out empties a file that is then committed |
| Pipeline.WriteChunks | src/xrdclient/session/bulk.py:416-526 | answered in any order, the file is exactly what the acknowledged pieces make of it, every other place is in a reported stretch, and count and stretches add up to the pieces; it raises only if a request failed |
| Upload.Resend | src/xrdclient/client/bulk.py:722-728 | each reported stretch is read again and written at its place; the count takes each as whole; it raises only if a request failed |
| Upload.ResentExactly | src/xrdclient/client/bulk.py:749-770 | with re-reads that may be short, the destination is the source if and only if whatever they missed is zeros below its end |
| Upload.ShortReread | src/xrdclient/client/bulk.py:768-770 | one piece of two bytes told to wait, one byte read again: the destination holds one byte |
| Upload.WholeUnmissed | src/xrdclient/client/bulk.py:768-770 | when every re-read is whole nothing is missed |
| Upload.Upload | src/xrdclient/client/bulk.py:675-728 | an upload with no request failed returns; one that returns reports exactly the bytes of the source from its start position, and has left them at the destination if and only if whatever its re-reads missed is zeros below the end, for any pieces and any pattern of waits; a declined plane loses and repeats nothing |
| Readahead.ProbeSound | src/xrdclient/client/_reading.py:125-154 | a hit is the file's own window, a miss asks for at most the size plus the larger of the readahead and 8 MiB, one out of sequence for the size alone, keeping nothing and starting over, and the block stays a true copy |
| Readahead.SequelIsCheap | src/xrdclient/client/_reading.py:98-154 | of reads one after the other, the fetches but the last have what they read ahead used up: the doubling windows of as many, together with what was left of the block, fit in what was read |
| Readahead.ScanIsCheap | src/xrdclient/client/_reading.py:98-154 | so for a file read through from its start, whatever the size of the reads |
| Readahead.GainDoubles | src/xrdclient/client/_reading.py:125-154 | up to the ceiling such windows add up to a power of two times the first |
| Readahead.StepInv | src/xrdclient/client/_reading.py:90-172 | every step of every thread, and a re-open at any moment, keeps the block a true copy and every answer a plain one |
| Readahead.CachedReadsArePlainReads | src/xrdclient/client/_reading.py:90-172 | in every interleaving of any number of threads, with re-opens anywhere, each read returns what an uncached read would, and no fetch exceeds its bound |
| Readahead.EveryReadCanReturn | src/xrdclient/client/_reading.py:90-172 | in every state any run reaches, after whatever losses and failed re-opens, a read that has begun can still return, with what an uncached one would give |
| Readahead.OneReopenAnIncarnation | src/xrdclient/client/_handle.py:438-526 | in every run, of all losses seen under one incarnation of an open handle at most one re-opens it; re-opens follow one incarnation after another, and one answers an older loss only if the open before it failed |
| Readahead.ResumesLater | src/xrdclient/client/_handle.py:494-526 | a thread that goes on after a loss goes on under a later incarnation of an open handle |
| Readahead.Reader.Reopen | src/xrdclient/client/_handle.py:476-526 | a thread that gets a handle back has an open one of a later incarnation than the loss it saw; one re-opened by another thread is left alone, cache included, one whose re-open failed is tried again |
| Readahead.Reader.PlaneRead | src/xrdclient/client/_reading.py:256-274 | what the plane gives is the window asked for, with the cache untouched; it breaks only on a closed handle or after a lost link |
| Readahead.Reader.EventRead | src/xrdclient/client/_reading.py:156-172 | the loop over chunks gives the window asked for, and raises only after a lost link |
| Readahead.Reader.Sequential | src/xrdclient/client/_reading.py:125-154 | an answer, from the block or fetched, is the window asked for, and leaves the cache as the decision says; what is in the block is answered without the server |
| Readahead.Reader.Read | src/xrdclient/client/_reading.py:90-113 | a read is the file's window, to the end for a negative size, refused exactly when that is over a limit that is set; it raises only on a closed handle or after a lost link |
| Removal.PhysicalLocates | src/xrdclient/client/_fsbase.py:229-237 | a target whose path passes no link is the place it names |
| Removal.LocateShrinks | src/xrdclient/client/_fsbase.py:262-272 | removals make a path lead nowhere, and never elsewhere |
| Removal.EntriesBlamed | src/xrdclient/client/_fsbase.py:262-272 | if for every entry listed what is left has a recorded failure behind it, so has everything left below the directory |
| Removal.LastBlames | src/xrdclient/client/_fsbase.py:262-272 | after the last entry the directory itself is gone, or a failure is on record that it was refused for, or that left something in it |
| Removal.TreeRemoval.Full | src/xrdclient/client/_fsbase.py:252-260 | removing as a question: "not empty" is said of a real directory only and changes nothing, what is refused is unchanged or, if it was an empty directory, gone, otherwise the directory is gone |
| Removal.TreeRemoval.Entry | src/xrdclient/client/_fsbase.py:239-250 | one listed entry: only its physical subtree loses nodes or is listed, even if the listing is out of date; done without error, it is gone; if the listing tells what it is, everything left of it has a recorded failure behind it, errors ignored or not |
| Removal.TreeRemoval.Ask | src/xrdclient/client/_fsbase.py:252-260 | an entry the listing does not tell, removed by asking: the same |
| Removal.TreeRemoval.Unlink | src/xrdclient/client/_fsbase.py:274-283 | unlinks the entry itself, or fails or lets go as asked; a leaf left behind has a recorded failure |
| Removal.TreeRemoval.Clear | src/xrdclient/client/_fsbase.py:262-272 | empties and removes a real directory, within its physical subtree; everything left below has a recorded failure behind it |
| Removal.TreeRemoval.Sweep | src/xrdclient/client/_fsbase.py:229-237 | the removal at the place the target leads to, by the kind of server |
| Removal.TreeRemoval.Run | src/xrdclient/client/_fsbase.py:229-237 | wherever the links on the target's path lead, whether or not the server identifies links and whatever fails, only physical nodes of the tree there are removed and only its real directories listed; a link as target, or a path to nowhere, changes nothing; if it returns with errors not ignored, the tree is gone. For a real directory, errors ignored or not: if no request failed it returns and the tree is gone, and every node left has a recorded failure at it or below it, or of a listing or a question about a directory above it |
| Walk.Descent.Enters | src/xrdclient/client/_fsbase.py:178-206 | an id that identifies is let in once; a link only when links are followed or cannot be told |
| Walk.PartitionPicks | src/xrdclient/client/_fsbase.py:733-758 | a listing is parted into its directories and everything else, each in listing order, each entry in exactly one, once |
| Walk.DueIsReachable | src/xrdclient/client/_fsbase.py:683-725 | being in every set closed under descent is being at the end of a trail of entries |
| Walk.From | src/xrdclient/client/_fsbase.py:702-725 | the recursion terminates by the ids not yet seen, explores everything it enters, and describes every listing it yields; each path spells a way of entries to the directory listed, and a directory comes before what is below it or after, as asked |
| Walk.Whole | src/xrdclient/client/_fsbase.py:683-725 | over any finite graph, cycles included, a walk enters exactly the directories reachable from the top, each once, and yields one visit for each when all can be listed, under a path that leads there |
| Glob.Compile | src/xrdclient/client/_fsbase.py:51-86 | the loop over the pattern builds the pattern's tokens, which match what the pattern means (`Glob.MatchIsMeant`) |
| Glob.MatchIsMeant | src/xrdclient/client/_fsbase.py:51-86 | compiled, a pattern matches exactly what its text means: `**/` zero or more whole components, `**` any stretch within a line, `*` any stretch without a slash, `?` one character other than a slash, anything else itself |
| Glob.FlatIsOneListing | src/xrdclient/client/_fsbase.py:785-791 | one listing is enough exactly when there is no wildcard up to the last slash, that slash follows no other, and no `**` comes after it |
| Glob.LiteralBegins | src/xrdclient/client/_fsbase.py:51-86 | what matches a pattern with a literal beginning begins with it, and the rest matches the rest |
| Glob.StaysInside | src/xrdclient/client/_fsbase.py:51-86 | a pattern with no slash and no doubled star matches no slash |
| Glob.LiteralPrefix | src/xrdclient/client/_fsbase.py:89-97 | as many leading components as have no wildcard, never the last, and with a slash they begin the pattern |
| Glob.WalkSkipsNothing | src/xrdclient/client/_fsbase.py:192-206 | over a tree whose ids differ or name nothing, refusing seen ids skips nothing |
| Glob.PathsAreThere | src/xrdclient/client/_fsbase.py:796-802 | the paths walked below a directory are exactly those of the entries that exist below it |
| Glob.PathsDistinct | src/xrdclient/client/_fsbase.py:796-802 | no path comes twice |
| Glob.MatchesLieBelow | src/xrdclient/client/_fsbase.py:89-97 | every match lies below the literal prefix, which is therefore a directory |
| Glob.MatchesLieIn | src/xrdclient/client/_fsbase.py:789-794 | when the magic is all in the last component, every match is an entry of that one directory |
| Glob.Glob | src/xrdclient/client/_fsbase.py:766-802 | exactly the paths of the whole namespace that the pattern means, each once, by one listing or by walking the prefix; it fails if and only if one listing is enough and there is no such directory |
| Zip.PackRoundTrip | src/xrdclient/client/_zip.py:58-63 | unpacking a packed record gives its fields, whatever follows |
| Zip.ReplaceWide | src/xrdclient/client/_zip.py:263-273 | each sentinel is replaced by the next value of the field, in the format's order |
| Zip.FindField | src/xrdclient/client/_zip.py:276-284 | the ZIP64 field's body, behind any other fields |
| Zip.Records | src/xrdclient/client/_zip.py:196-210 | the walk over the records gives the members in order, or the first error, or an error if the compressed sizes exceed the archive |
| ZipRecord.RecordExactly | src/xrdclient/client/_zip.py:212-243 | a record is accepted if and only if its four signature bytes and all of its stated length stand there, its overflowed values resolve and its member lies inside the archive; each field is the number at its place in the format |
| ZipRecord.CheckedExactly | src/xrdclient/client/_zip.py:196-210 | a directory is accepted if and only if such records follow one another, as many as declared or until too little is left, and their sizes together fit the archive |
| ZipRecord.ReadExactly | src/xrdclient/client/_zip.py:110-131 | any bytes at all are read as a directory if and only if their last closing record, and the ZIP64 one its locator leads to, say that directory; a comment cut off, a locator leading nowhere or anything outside the archive is refused, and nothing else is |
| Zip.AcceptedIsInside | src/xrdclient/client/_zip.py:110-131 | of any bytes accepted, the directory and every member lie inside the archive, and so does their total |
| Zip.NamedIsFirst | src/xrdclient/client/_zip.py:134-138 | the member found by name is the first of that name; none is found if and only if there is none |
| Zip.MemberIsInside | src/xrdclient/client/_zip.py:134-158 | a member that is opened is in the directory, and its bytes are inside the archive beyond its header; where they begin is `ZipMember.FindsData` |
| ZipEncode.WideRoundTrip | src/xrdclient/client/_zip.py:245-273 | values moved to the ZIP64 field because they overflow come back, whichever they are |
| ZipEncode.FieldFound | src/xrdclient/client/_zip.py:276-284 | the ZIP64 field is found behind any others, whatever follows |
| ZipEncode.RecordRoundTrip | src/xrdclient/client/_zip.py:212-243 | reading a record undoes writing it, extra fields and comment included |
| ZipEncode.DirectoryRoundTrip | src/xrdclient/client/_zip.py:196-243 | reading a whole directory gives the members written |
| ZipArchive.LocatorFollowed | src/xrdclient/client/_zip.py:182-193 | the ZIP64 locator is followed exactly when it stands beyond the start of the first read |
| ZipArchive.LocatorBeyondStart | src/xrdclient/client/_zip.py:185 | which it does unless the archive is longer than that read and its comment has all 65535 bytes |
| ZipArchive.Opens | src/xrdclient/client/_zip.py:110-131 | a sound archive is opened at the directory its records give |
| ZipArchive.ReadingUndoesWriting | src/xrdclient/client/_zip.py:110-131 | for any members, extra fields, comment and ZIP64 or not, inside the first read or beyond it, the members and records written come back if and only if the reader is told where the directory is |
| ZipArchive.FullCommentUnread | src/xrdclient/client/_zip.py:185 | the archives that are not read back exist: 4 GiB or more before an empty directory and a comment of 65535 bytes |
| ZipArchive.ZerosUnread | src/xrdclient/client/_zip.py:185 | one of them, all zeros |
| ZipMember.FindsData | src/xrdclient/client/_zip.py:134-158 | the first member of a name is found with the data its writer put behind the local header, whatever the lengths of name and extra field there, if and only if that header has its signature and agrees on flags and compression |
| ZipMember.MemberRoundTrip | src/xrdclient/client/_zip.py:134-158 | so for any archive as written, with its directory, comment and ZIP64 or not |
| Percent.QuoteRoundTrip | src/xrdclient/url.py:291-305 | unquoting undoes quoting for any text and any safe characters |
| Percent.UnquoteLeaves | src/xrdclient/url.py:291-305 | text without escapes is left alone, stray percent signs and characters beyond ASCII included |
| UrlPath.PathRoundTrip | src/xrdclient/url.py:291-305 | for every path, unquoting its quoted form gives it back with escaped slashes spelt `%2F` |
| UrlPath.RespeltIsSame | src/xrdclient/url.py:288-305 | which is the path itself if and only if none was spelt `%2f` |
| UrlPath.NormalizeIdempotent | src/xrdclient/url.py:355-361 | normalising twice is normalising once |
| UrlPath.NormalExactly | src/xrdclient/url.py:355-361 | a path is normal if and only if it is spelt from components that are neither empty nor dots, with one leading slash |
| UrlPath.NormalizeDrops | src/xrdclient/url.py:355-361 | normalising brings in no character but slashes |
| UrlPath.NormalizeTakesOut | src/xrdclient/url.py:355-361 | nothing between two slashes, a single dot, and a component followed by two dots can be taken out anywhere in a path without changing what it is normalised to |
| UrlPath.RootHasNoParent | src/xrdclient/url.py:355-361 | two dots at the root stay at the root |
| Query.RenderReads | src/xrdclient/url.py:308-316 | a rendered field decodes to its name and value when the name has no `=` |
| Query.RenderCut | src/xrdclient/url.py:308-316 | otherwise to a name cut at the first `=` |
| Query.PlusIsSpace | src/xrdclient/url.py:319-331 | words written with plus signs between them decode to those words with spaces between them |
| Query.Reconcile | src/xrdclient/url.py:334-352 | the loops over fields and names give the last field of each surviving name in the order written, then the new names |
| Query.ReconciledDecodes | src/xrdclient/url.py:334-352 | the reconciled query decodes to the edited map if and only if every name with an `=` was there before with the same value |
| Query.EqualsInName | src/xrdclient/url.py:334-352 | setting any field whose name has an `=` on an empty query does not read back |
| Query.UneditedStay | src/xrdclient/url.py:334-352 | fields that are the last of their name and not edited keep their exact bytes and their order |
| Query.InStep | src/xrdclient/url.py:68-79 | a query that already decodes to the map is left byte-identical; otherwise it decodes to the map under exactly that condition, and unedited fields stay |
| Url.IntRoundTrip | src/xrdclient/url.py:437-442 | reading a written port gives it back, negative ones included |
| Url.CredentialsRead | src/xrdclient/url.py:406-416 | user and password read back; a password without a user is lost |
| Url.WhereReads | src/xrdclient/url.py:419-425 | host and port read back exactly for hosts that can be written: plain, or an address in brackets |
| Address.AddressRead | src/xrdclient/url.py:364-442 | of any address: what stands before the last `@` is the user, up to a colon, and the password; brackets hold a host with colons; no port is 1094, but 80 for `http` and `dav` and 443 for `https`, `davs`, `webdav` and `s3`; the address is refused if and only if its port is no number |
| Address.IntExactly | src/xrdclient/url.py:437-442 | a port is read as a number if and only if it is a signed or unsigned run of digits, single underscores allowed between them, in blanks, and then as that number |
| Address.NoMarkIsBare | src/xrdclient/url.py:369-370 | a text is a bare path if and only if `://` stands nowhere in it |
| Address.FileRead | src/xrdclient/url.py:374-375 | a `file` URL, its scheme in any case, is its path, or the root |
| Url.ParsedIsReadable | src/xrdclient/url.py:364-398 | whatever text is parsed, the host has no `/` or `@`, the path is normal, a path that is not HTTP has no `?`, and the query is what the raw one decodes to |
| Url.PathReads | src/xrdclient/url.py:445-452 | path and raw query come apart again, the double slash of root URLs included |
| Url.ReadingUndoesWriting | src/xrdclient/url.py:210-233 | `parse(str(u)) == u` if and only if `u` is canonical |

## Left out

- Session, router, transport, TLS, authentication and the wire constants: used through the contracts above.
- Retry delays, jitter, wall-clock budgets and the restart limit: whether a worker resumes or gives up is left open at every loss.
- Logging, progress callbacks, statistics, preallocation of the destination, and downloads to something that cannot seek other than through the ordered stream.
- How often `_execute` re-opens: it reads `seen` anew on every turn (`src/xrdclient/client/_handle.py:457`), so a loss it meets may re-open an incarnation newer than the one that failed.
- The checksums of pages, and how many pages a write is cut into: which pages are corrupt is the answer's to say.
- Writing.Handle.PgWrite: a write that fails promises only that nothing outside it has changed, since the server stores corrupt pages too.
- Writing.Handle.Write: on a handle opened to append a chunk whose first attempt landed unanswered is sent again and so stored twice; only that nothing already there changes is promised.
- Checkpoint.Perform: what a clone does outside a checkpoint is not modelled; inside one it is refused.
- Upload.Upload: the source's pieces are given, with only their concatenation fixed; a source that changes meanwhile is not modelled.
- Removal.TreeRemoval.Run: a link's target is where it finally leads, and nobody else changes the namespace meanwhile.
- Readahead.Reader.Reopen: the reset of bound paths and of the router, and the test for an abort, are left out.
- Walk.Whole: a namespace whose ids name nothing may make a real walk endless, and is not covered; errors of a listing are skipped, callbacks for them left out.
- Glob.Glob: patterns with brackets are left out, since a negated one also matches `/` (`src/xrdclient/client/_fsbase.py:80-81`); so are relative patterns, opaque suffixes, links, and the order in which names come.
- Zip.MemberIsInside: names stay bytes, the decoding of member names is left out.
- Url.ReadingUndoesWriting: local files and bare paths are told apart and not followed further; only ASCII letters are lowered, only ASCII digits and blanks are read in a port, and text has no lone surrogates.
- `name`, `parent`, `join`, `http_url`, `cgi_except` and `repr` of a URL: short expressions over what is modelled.
- `aio`, `easy`, `path`, the fsspec adapter, the command line, configuration tables and error classes.
