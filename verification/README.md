# Models of curl's queues, cookies, pools and racing connects, and of the log sinks

This project models five parts of the repository, each with the invariants it is built on, and proves what
those parts promise, for every input and over every run.

- **The chunked byte queue** of libcurl (`BufqChunk`, `BufqList`, `Bufq`, `BufqRuns`). A linked list of chunks with
  read and write offsets, a list of spares and an optional pool that queues share. The lists are linked lists of
  objects; the queue keeps, for the proofs only, all bytes it ever accepted and all that ever left it. Readers and
  writers are objects that answer as they like: they may block, fail, or take or deliver less than asked for. The
  main result is that the queue is first in, first out, byte by byte, through every call and callback.
- **The cookie jar** of libcurl (`CookieMatch`, `CookieList`, `CookieBuckets`, `CookieJar`, `CookieRuns`,
  `CookieNetscape`). 63 buckets as an index, the next expiry as a cache, replacement by key, the comparator of the
  Cookie header, and the lines of the Netscape cookie file. Index and cache agree with a plain search of all cookies.
  The hash is that of a 64-bit `size_t`.
- **The connection pool and the shutdown list** of libcurl (`ConnList`, `ConnPool`, `ConnRuns`). Live connections in
  bundles by destination, connections in shutdown in a list, limits for each host and in total over both. The checks of
  the limits end, say OK only if they made room, and over every run both limits hold but for the connections that are
  added without asking or in spite of the answer.
- **The Happy Eyeballs connect filter** of libcurl (`HappyOrder`, `HappyAttempts`, `HappyEyeballs`, `HappyRuns`).
  Attempts raced against each other, with any outcome of a connect, any clock that does not go back, any time left,
  and DNS results that come in little by little. Order, pace, number and clean-up of the attempts are as
  sections 4 and 5 of RFC 8305 and the code want them.
- **The log sinks and the id generator** of the repository itself (`LogFiles`, `LogLines`, `DailySink`, `CountSink`,
  `LogRuns`, `DateFormat`, `Digits`, `Words`, `Id8`). Chains of log files as a map from base name and index to contents;
  rotations are exact shifts, and over every run what is left of a log is an end of what was written. The formatter
  of the dates in file names; the mixer and the base-62 digits of the ids, on 64-bit numbers and their bits.

`Common` holds what several of them share. The modules whose names end in `Runs` are about whole runs: any number of
calls in any order.

What the code does where its documentation or a standard says otherwise:

- The path of a cookie. From the header to the request, `CookieMatch.CookiePathIsStandard` says exactly when the code
  decides as sections 5.2.4 and 5.1.4 of RFC 6265 do.
  - The code takes a slash off the end of a Path attribute, the standard does not. So with `Path=/foo/` the cookie is sent
    to `/foo` (`CookieMatch.TrailingSlashSent`).
  - A cookie path that still ends with a slash is not matched by requests that go below it. Without an attribute that is
    the default path for a request like `/a//b` (`CookieMatch.TrailingSlashMissed`); for the match alone see
    `CookieMatch.PathMatchIsStandard`.
  - An attribute that is not absolute gives the root and one in quotes is taken without them, where the standard takes the
    default path (`CookieMatch.RelativePathSent`); on all requests they agree only by chance
    (`CookieMatch.OtherPathIsStandard`).
- Section 5.4 of RFC 6265 sends longer paths first and then what was created first. `cookie_sort` compares the paths as the
  code keeps them, looks at the lengths of domain and name before it looks at creation, and then puts first what was
  created last. `CookieList.OrderIsStandard` says exactly when the order is that of the standard, with
  `CookieList.ShorteningIs` for what the code takes off a path. `CookieList.NewestFirst` and `CookieList.SlashForgotten`
  have two cookies each in the wrong order.
- A cookie that is not secure must not overlay a secure one, and behind one for `/login` the path `/loginhelper` is said to
  be fine. It is refused (`CookieList.LoginHelperRefused`): the test is by segments of the path exactly unless the new path
  goes on within the first segment of the old one (`CookieList.OverlayIsBySegment`).
- The limits of the connection pool are said to be maxima. They hold for connections that ask: a `file:` transfer joins the
  pool without asking, and a sub-request such as a DoH lookup goes ahead at the total limit. `ConnRuns.Run` says by how much
  the limits can be exceeded then, `ConnRuns.FileGoesOver` and `ConnRuns.SubRequestGoesOver` show it.
- A matching cookie is sent exactly if its domain and the host have the same hash: `CookieJar.Jar.GetList`. That is so for
  every cookie of exactly one host and every domain with a dot (`CookieJar.IndexFinds`), but a cookie for a host without a
  dot in its name and all hosts below it may be missed by those hosts: `CookieMatch.DotlessDomainMissed`. It is found if
  the hashes are equal by chance: `CookieMatch.DotlessDomainFound`. Such a cookie comes from a cookie file, or from a header
  in a build in which libpsl lets it pass; without libpsl a header can name `localhost` only
  (`3rd/source/curl-8.21.0/lib/cookie.c:318-336`).
- Ids are said to be unique. They are not: two calls in a row return the same id when counter and clock are even before
  and the clock goes on by one tick (`Id8.NotUnique`). The mixed seeds of two calls in a row are the same exactly if the
  clock changes in the bits that the counter changes in (`Id8.SeedsInARow`, and `Id8.SameSeed` for any two calls);
  `Id8.SameId` has the different seeds with one id.
- Quoted text in a date format, wherever it stands, comes out as it is unless it is made of quotes only:
  `DateFormat.QuotingIsExact`.
- A strict line count is said to limit the lines of every file. With backups and one-line records it does. In general a
  record keeps the limit exactly if what it is written behind, nothing after a rotation, has room for all its lines
  (`CountSink.Sink.SinkIt`); without backups there is no rotation, and a record of more lines counts as one:
  `CountSink.CapacityLost` and `CountSink.LongRecord` show it.
- A domain that starts with a dot, or with `#` on a line without a mark, does not survive the cookie file, a path
  other than `/` loses a slash at its end, and a cookie without a path comes back with `/`: `CookieNetscape.RoundTrip`.
- `cf_ip_ballers_run` evaluates again at once when the time left is 0, which means no limit, and addresses are left:
  `HappyEyeballs.Ballers.Wake`. While a transfer counts as connecting the time left is never 0
  (`3rd/source/curl-8.21.0/lib/connect.c:86-92`), so this takes a later connection of a transfer without a timeout.

## Model

| member | source | states |
|---|---|---|
| BufqChunk.Chunk.Append | 3rd/source/curl-8.21.0/lib/bufq.c:49-61 | takes as many bytes as fit and says how many; they are behind the bytes that were there |
| BufqChunk.Chunk.Read | 3rd/source/curl-8.21.0/lib/bufq.c:63-82 | copies out the oldest unread bytes, exactly as many as there are or as fit, and rewinds an emptied chunk |
| BufqChunk.Chunk.Skip | 3rd/source/curl-8.21.0/lib/bufq.c:123-134 | drops exactly the oldest unread bytes, as many as there are or as asked for |
| BufqChunk.Chunk.Slurp | 3rd/source/curl-8.21.0/lib/bufq.c:84-104 | exactly what the reader delivered is behind the old bytes, never more than the limit or the space |
| BufqList.ChunkQueue.Acyclic | 3rd/source/curl-8.21.0/lib/bufq.c:318-365 | the chunks of a queue are pairwise different, so that following `next` ends |
| BufqList.ChunkQueue.Pop | 3rd/source/curl-8.21.0/lib/bufq.c:318-344 | takes the first chunk off; all others stay as they were, and `tail` is right also for the last one |
| BufqList.Pool.Take | 3rd/source/curl-8.21.0/lib/bufq.c:156-184 | hands out a chunk that is reset and no longer in the pool, or fails only if memory runs out |
| BufqList.Pool.Put | 3rd/source/curl-8.21.0/lib/bufq.c:186-198 | keeps a chunk or frees it, so that the count is that of the list and at most the maximum |
| Bufq.Queue.constructor | 3rd/source/curl-8.21.0/lib/bufq.c:206-216 | a new queue is valid and empty |
| Bufq.Queue.GetSpare | 3rd/source/curl-8.21.0/lib/bufq.c:283-316 | a reset chunk from the spares, the pool or memory, counted once, and within the hard limit |
| Bufq.Queue.GetNonFullTail | 3rd/source/curl-8.21.0/lib/bufq.c:346-365 | a tail with room, unless the hard limit is reached or memory runs out; the queued bytes do not change |
| Bufq.Queue.Write | 3rd/source/curl-8.21.0/lib/bufq.c:367-392 | a beginning of the bytes, and of exactly the reported length, is behind the queued bytes; with a hard limit that is all that the room allows, and `Again` for some bytes means exactly that the queue was full; with a soft limit it is everything |
| Bufq.Queue.Read | 3rd/source/curl-8.21.0/lib/bufq.c:401-415 | the buffer gets exactly the oldest bytes, as many as fit, and they are gone from the queue; nothing else in the buffer changes |
| Bufq.Queue.Skip | 3rd/source/curl-8.21.0/lib/bufq.c:461-470 | exactly the oldest bytes are gone, as many as asked for or as there are |
| Bufq.Queue.PruneHead | 3rd/source/curl-8.21.0/lib/bufq.c:318-344 | exactly the empty chunks at the head are dropped; each goes to the pool if there is one, as far as it takes more, is freed above the maximum or if no spares are kept, and else becomes a spare |
| Bufq.Queue.Reset | 3rd/source/curl-8.21.0/lib/bufq.c:243-253 | all unread bytes are dropped and every chunk becomes a spare |
| Bufq.Queue.Len | 3rd/source/curl-8.21.0/lib/bufq.c:255-264 | the number of queued bytes |
| Bufq.Queue.IsEmpty | 3rd/source/curl-8.21.0/lib/bufq.c:266-269 | empty is when no byte is queued, though only the head is looked at |
| Bufq.Queue.IsFull | 3rd/source/curl-8.21.0/lib/bufq.c:271-281 | with a hard limit, full is exactly when there is no room for one more byte; with a soft one, exactly when no chunk is spare and there are more than the maximum, or as many and no room in the last one |
| Bufq.Queue.Peek | 3rd/source/curl-8.21.0/lib/bufq.c:423-436 | finds something exactly if a byte is queued, and shows all unread bytes of the first chunk without changing the queue |
| Bufq.Queue.PeekAt | 3rd/source/curl-8.21.0/lib/bufq.c:438-459 | finds something exactly if the offset is below the length, and shows what is queued from there on |
| Bufq.Queue.Pass | 3rd/source/curl-8.21.0/lib/bufq.c:472-502 | whatever the writer does, what it took is a beginning of the queue of exactly the reported length, and the rest is still queued; something is queued afterwards only if the writer refused it, and then the code is its error, or whether anything was passed on |
| Bufq.Queue.WritePass | 3rd/source/curl-8.21.0/lib/bufq.c:504-551 | what the writer took, then the queue, is the old queue, then the beginning of the bytes that went in; while memory lasts all bytes go in unless the writer refuses, and then the code is its error, or whether any went in; the writer is called whenever the queue is full, and not at all if there is room for everything; the loop ends for any writer |
| Bufq.Queue.Sip | 3rd/source/curl-8.21.0/lib/bufq.c:553-569 | one read: what the reader delivered is behind the queued bytes, and within the limits |
| Bufq.Queue.Slurp | 3rd/source/curl-8.21.0/lib/bufq.c:579-613 | under a hard limit or with a maximum it ends whatever the reader does, otherwise for the readers that at some time do not fill what is asked for; what was delivered is queued and counted; while memory lasts it reads on until the maximum is reached, a hard limit is, or the reader fails or does not fill its space, and no call before the last is of that kind; the code is that of the last call, but for being blocked after some bytes |
| Bufq.Queue.SlurpForever | 3rd/source/curl-8.21.0/lib/bufq.c:579-613 | for any other reader, while memory lasts, every turn of the loop is followed by another one |
| Bufq.Queue.Sound | 3rd/source/curl-8.21.0/lib/bufq.c:156-198 | head list, spare list and pool are acyclic and disjoint; `tail` is the last chunk; all chunks but the last are full and have unread bytes; only the head has been read from; the counts are right |
| Bufq.Queue.Bounded | 3rd/source/curl-8.21.0/lib/bufq.c:206-233 | a hard limit bounds the chunks and, times the chunk size, the bytes |
| Bufq.Queue.RoomIs | 3rd/source/curl-8.21.0/lib/bufq.c:206-233 | under a hard limit, what is queued and the room for more make up all chunks, less what was read from the first one |
| BufqRuns.Run | 3rd/source/curl-8.21.0/lib/bufq.c:367-613 | over any run, call by call: a write puts in a beginning of its bytes, all that there is room for under a hard limit and everything under a soft one, with the code that this calls for; a read or skip takes exactly the oldest bytes, a reset all; the calls of the reader and the writer follow each other without a gap, and each `Sip`, `Slurp`, `Pass` and `WritePass` goes on for as long as their answers allow and returns the code that these call for; what the reader gave is what went in, what the writer got is what came out, both in order |
| BufqRuns.FirstInFirstOut | 3rd/source/curl-8.21.0/lib/bufq.c:367-613 | over any run, what came out and then the queue is the old queue and then what went in |
| BufqRuns.RunBeside | 3rd/source/curl-8.21.0/lib/bufq.c:186-198 | over any run of calls on two queues that share a pool, in any order, each queue does on its own calls what it would do alone, and they stay apart |
| CookieMatch.TailMatchIsDomainMatch | 3rd/source/curl-8.21.0/lib/cookie.c:74-101 | the tail match is the domain match of section 5.1.3 of RFC 6265, both ways |
| CookieMatch.PathMatchIsStandard | 3rd/source/curl-8.21.0/lib/cookie.c:107-157 | the match alone: for one and the same cookie path and any request it decides as section 5.1.4 of RFC 6265 does, exactly unless the path still ends with a slash and the request goes below it |
| CookieMatch.StoredPaths | 3rd/source/curl-8.21.0/lib/cookie.c:227-249 | what can be stored as a path is exactly the texts that start with a slash |
| CookieMatch.DefaultIsStandard | 3rd/source/curl-8.21.0/lib/cookie.c:378-400 | without a Path attribute the code keeps the default path of section 5.1.4 of RFC 6265 |
| CookieMatch.CookiePathIsStandard | 3rd/source/curl-8.21.0/lib/cookie.c:107-400 | from header to request, code and standard agree exactly unless: without an attribute, the default path ends with a slash and the request goes below it; with an absolute one, the request is matched only because a slash was taken off; with any other that is not quoted, the default path does not match |
| CookieMatch.OtherPathIsStandard | 3rd/source/curl-8.21.0/lib/cookie.c:227-400 | with an attribute that is not absolute, quoted or not, they agree on all requests exactly if the code keeps the default path by chance and it does not end with a slash |
| CookieMatch.TrailingSlashMissed | 3rd/source/curl-8.21.0/lib/cookie.c:107-157 | the default path for `/a//b` is `/a/` for both, which in the code does not match a request for `/a/b`, though the standard wants it |
| CookieMatch.TrailingSlashSent | 3rd/source/curl-8.21.0/lib/cookie.c:227-249 | with `Path=/foo/` the code sends the cookie to `/foo`, the standard does not |
| CookieMatch.RelativePathSent | 3rd/source/curl-8.21.0/lib/cookie.c:227-249 | with `Path=x` from `/a/b` the code sends the cookie to `/c`, the standard does not |
| CookieMatch.SanitizedForm | 3rd/source/curl-8.21.0/lib/cookie.c:227-249 | a sanitized path starts with a slash; sanitizing it again changes nothing exactly if it is `/` or does not end with a slash |
| CookieMatch.TopOfTail | 3rd/source/curl-8.21.0/lib/cookie.c:162-181 | a domain with a dot and any host below it have the same last two labels |
| CookieMatch.TailMatchSameBucket | 3rd/source/curl-8.21.0/lib/cookie.c:191-222 | a domain with a dot and any host below it hash to the same bucket, numerical addresses aside |
| CookieMatch.SameNameSameBucket | 3rd/source/curl-8.21.0/lib/cookie.c:191-222 | names that differ in case only hash to the same bucket |
| CookieMatch.DotlessDomainMissed | 3rd/source/curl-8.21.0/lib/cookie.c:191-222 | without a dot this fails: `h` and `w.h` tail-match and have different buckets |
| CookieMatch.DotlessDomainFound | 3rd/source/curl-8.21.0/lib/cookie.c:191-222 | by chance `h` and `av.h` have the same bucket, so that not every such cookie is missed |
| CookieList.SameKeyIsEquivalence | 3rd/source/curl-8.21.0/lib/cookie.c:915-936 | having the same key is an equivalence, so that one cookie per key makes sense |
| CookieList.FindExisting | 3rd/source/curl-8.21.0/lib/cookie.c:870-949 | refuses exactly if the cookie would overlay a secure one or replace a live one from a file; finds the first cookie with the key |
| CookieList.OverlayIsBySegment | 3rd/source/curl-8.21.0/lib/cookie.c:884-912 | the overlay test is by segments, as its comment says, exactly unless the new path goes on within the first segment of the old one |
| CookieList.OverlaysIs | 3rd/source/curl-8.21.0/lib/cookie.c:884-912 | in the terms of RFC 6265: which insecure cookies overlay a secure one, by name, by domain above or below, and by path |
| CookieList.LoginHelperRefused | 3rd/source/curl-8.21.0/lib/cookie.c:892-907 | `/loginhelper` is refused behind a secure cookie for `/login`, which the comment says is fine |
| CookieList.CookieSortIsOrder | 3rd/source/curl-8.21.0/lib/cookie.c:1238-1267 | on different creation numbers the comparator is a strict total order |
| CookieList.OrderIsStandard | 3rd/source/curl-8.21.0/lib/cookie.c:1238-1267 | of two cookies, the code sends first the one that section 5.4 of RFC 6265 sends first, exactly if the lengths of the standard's paths differ by more than what the code shortens the first one more, or by just that and the first one has the longer domain, then name, then later creation |
| CookieList.ShorteningIs | 3rd/source/curl-8.21.0/lib/cookie.c:227-400 | the code shortens a path by nothing without an attribute, by a slash at the end of an absolute one, and to the root for one that is neither absolute nor quoted |
| CookieList.OrderWithoutSlashes | 3rd/source/curl-8.21.0/lib/cookie.c:1238-1267 | without slashes at their ends, exactly if the paths differ in length or the older cookie has the longer domain, or an equally long one and the longer name |
| CookieList.NewestFirst | 3rd/source/curl-8.21.0/lib/cookie.c:1238-1267 | two cookies of different keys that a jar can hold and that the code and the standard order differently |
| CookieList.SlashForgotten | 3rd/source/curl-8.21.0/lib/cookie.c:227-1267 | `Path=/foo/` and `Path=/foo`: the standard sends the first one first, the code the one with the longer name |
| CookieList.SortUnique | 3rd/source/curl-8.21.0/lib/cookie.c:1360-1388 | a sorted list of the same cookies is the only one, so that the sorting method does not matter |
| CookieList.PurgeBucket | 3rd/source/curl-8.21.0/lib/cookie.c:288-315 | exactly the expired cookies go, in order and counted; the next expiry is that of a cookie that stays |
| CookieBuckets.PlacedUnique | 3rd/source/curl-8.21.0/lib/cookie.c:860-964 | putting a cookie in keeps one cookie per key and each in the bucket of its domain |
| CookieBuckets.PlacedContents | 3rd/source/curl-8.21.0/lib/cookie.c:860-964 | afterwards the jar has the new cookie, no other with its key, and everything else as before |
| CookieBuckets.SecureStays | 3rd/source/curl-8.21.0/lib/cookie.c:884-949 | what the test is for: an admitted cookie that is neither secure nor from a secure origin pushes no secure cookie with a path out of the jar |
| CookieBuckets.SecureGuards | 3rd/source/curl-8.21.0/lib/cookie.c:860-912 | a secure cookie anywhere in the jar keeps out every insecure one of its name from an insecure origin, for any domain above or below with a dot in both, in the first segment of its path |
| CookieBuckets.PlacedLazy | 3rd/source/curl-8.21.0/lib/cookie.c:1067-1075 | putting a cookie in keeps the next expiry below every expiry in the jar |
| CookieBuckets.PlacedTotal | 3rd/source/curl-8.21.0/lib/cookie.c:1055-1075 | the count grows by one exactly if no cookie was replaced |
| CookieBuckets.SiftedKeeps | 3rd/source/curl-8.21.0/lib/cookie.c:274-316 | dropping cookies keeps every invariant of the jar |
| CookieBuckets.UniqueInJar | 3rd/source/curl-8.21.0/lib/cookie.c:860-964 | keys are unique in the whole jar although only one bucket is searched |
| CookieJar.IndexFinds | 3rd/source/curl-8.21.0/lib/cookie.c:1300-1358 | a cookie for exactly one host, or for a domain with a dot, is in the bucket of every host it matches |
| CookieJar.IndexMisses | 3rd/source/curl-8.21.0/lib/cookie.c:1300-1358 | any other matching cookie shares the bucket of the host that its domain names; for a longer host it is for a domain without a dot or an address; without a domain it is in bucket 0 |
| CookieJar.MatchesIsStandard | 3rd/source/curl-8.21.0/lib/cookie.c:1322-1346 | the tests on a cookie are those of section 5.4 of RFC 6265: secure, domain match, path match, but for the one case of a path with a slash at its end |
| CookieJar.Jar.constructor | 3rd/source/curl-8.21.0/lib/cookie.c:1100-1118 | a new jar is valid and empty |
| CookieJar.Jar.RemoveExpired | 3rd/source/curl-8.21.0/lib/cookie.c:274-316 | scan or early exit, the outcome is that of a full scan; after a scan the next expiry is exact |
| CookieJar.Jar.Add | 3rd/source/curl-8.21.0/lib/cookie.c:974-1084 | when a cookie is refused, when it gets in, and the whole new jar in either case; all invariants hold |
| CookieJar.Jar.Insert | 3rd/source/curl-8.21.0/lib/cookie.c:1055-1075 | the new cookie takes the place of the one with its key and its creation number, or is counted as one more |
| CookieJar.Jar.GetList | 3rd/source/curl-8.21.0/lib/cookie.c:1300-1400 | sorted, at most 150, every one matching and not expired; below 150 a cookie of the old jar is listed exactly if section 5.4 of RFC 6265 sends it, it has not expired, and its domain and the host have the same hash, which holds for every indexable one |
| CookieJar.Jar.ClearSession | 3rd/source/curl-8.21.0/lib/cookie.c:1430-1451 | exactly the session cookies go |
| CookieJar.Jar.ClearAll | 3rd/source/curl-8.21.0/lib/cookie.c:1407-1423 | the jar is empty and valid |
| CookieRuns.Sound | 3rd/source/curl-8.21.0/lib/cookie.c:860-1075 | in a valid jar two cookies with one key or one creation number are the same; each is in its bucket and none expires before the cached time |
| CookieRuns.Run | 3rd/source/curl-8.21.0/lib/cookie.c:974-1451 | over any run the jar is valid, and every call, with its results, does to the cookies what `Added` and `Got` and the two clearings say: what is refused, replaced and expired, what is listed, and when a list is made |
| CookieRuns.NoneExpired | 3rd/source/curl-8.21.0/lib/cookie.c:274-316 | a lookup that makes a list leaves no expired cookie in any bucket, though the scan may be skipped |
| CookieRuns.AddedExactly | 3rd/source/curl-8.21.0/lib/cookie.c:974-1084 | exactly when a cookie gets in: it is one of the first 50 of its response, keeps the promise of its name, is no session cookie of a file read for a new session, is for no public suffix, and overlays nothing that it must not |
| CookieRuns.PromisesKeptInRun | 3rd/source/curl-8.21.0/lib/cookie.c:1005-1022 | over any run no cookie gets in whose name starts with `__Secure-` or `__Host-` and that is not secure, or not for one host and all paths |
| CookieRuns.SecureStaysInRun | 3rd/source/curl-8.21.0/lib/cookie.c:860-1451 | over any run a secure cookie with a path stays, as long as it does not expire or get cleared and every new cookie with its key is neither secure nor from a secure origin |
| CookieNetscape.ParseNetscape | 3rd/source/curl-8.21.0/lib/cookie.c:670-801 | the parser, loop and checks, computes `Parse` |
| CookieNetscape.ParsedIs | 3rd/source/curl-8.21.0/lib/cookie.c:670-801 | whatever is in a line, a cookie that is read from it has a domain, a path that can be stored, an expiry in range, no control characters and the flags of its name, and is secure only if it may be |
| CookieNetscape.SaysTrueIs | 3rd/source/curl-8.21.0/lib/cookie.c:721-748 | a flag is true exactly if it is a start of the word, in any case |
| CookieNetscape.NumberOfDecimal | 3rd/source/curl-8.21.0/lib/cookie.c:753-757 | a printed expiry is read back if it is in range, and refused otherwise |
| CookieNetscape.FieldsOfJoin | 3rd/source/curl-8.21.0/lib/cookie.c:1473-1497 | cutting a printed line at its tabs gives the fields back, if none has a tab or a line break in it |
| CookieNetscape.FieldsReadBack | 3rd/source/curl-8.21.0/lib/cookie.c:670-801 | reading the printed fields restores name, value, expiry and flags, and the path, `/` if there is none, sanitized once more |
| CookieNetscape.PathLeftOut | 3rd/source/curl-8.21.0/lib/cookie.c:728-750 | a line without the path field is read with the path `/` and all other fields as they are |
| CookieNetscape.RoundTrip | 3rd/source/curl-8.21.0/lib/cookie.c:670-801 | with any stored path or none, printing and parsing over a secure origin restores a cookie exactly if it has a path, that is `/` or does not end with a slash, and its domain does not start with a dot, nor with a `#` that starts the line |
| ConnList.CountTo | 3rd/source/curl-8.21.0/lib/cshutdn.c:362-378 | the connections of a list to a destination; none exactly if all go elsewhere |
| ConnList.IndexedJoined | 3rd/source/curl-8.21.0/lib/conncache.c:90-96 | adding a connection keeps the bundles an index of the live connections |
| ConnList.IndexedWithout | 3rd/source/curl-8.21.0/lib/conncache.c:147-182 | removing one does too, and its bundle goes with its last connection |
| ConnList.CloseShutdown | 3rd/source/curl-8.21.0/lib/cshutdn.c:167-193 | closing a connection in shutdown moves it to the freed ones and nowhere else |
| ConnPool.Multi.Add | 3rd/source/curl-8.21.0/lib/conncache.c:466-498 | the connection is last in the bundle of its destination, counted and numbered; other bundles stay |
| ConnPool.CapDoesNotWrap | 3rd/source/curl-8.21.0/lib/conncache.c:563-569 | without a setting, the cap is four times the running transfers or the largest number of its type |
| ConnPool.Multi.RemoveConn | 3rd/source/curl-8.21.0/lib/conncache.c:162-182 | exactly this connection leaves its bundle and the count |
| ConnPool.Multi.DestroyOldest | 3rd/source/curl-8.21.0/lib/cshutdn.c:167-203 | exactly the first connection in shutdown, or the first to the destination, is freed |
| ConnPool.Multi.AddShutdown | 3rd/source/curl-8.21.0/lib/cshutdn.c:395-424 | the connection is last on the list, after the oldest made room at the total limit, or is freed; the total stays within its limit exactly if it was freed or the pool is below the limit |
| ConnPool.Multi.Discard | 3rd/source/curl-8.21.0/lib/conncache.c:184-229 | a connection in use stays as it is; otherwise it is cut off exactly if aborted or connect-only, and last on the list of shutdowns exactly if it is not cut off and the attempt to shut it down is not done and can be watched, else freed |
| ConnPool.Multi.Close | 3rd/source/curl-8.21.0/lib/conncache.c:635-685 | a pooled connection leaves the pool; it is cut off exactly if aborted or connect-only, and in shutdown exactly if it still has to be shut down, else freed; the whole new list of shutdowns; no count against a limit grows |
| ConnPool.Multi.Terminate | 3rd/source/curl-8.21.0/lib/conncache.c:635-685 | a connection in use stays unless aborted; otherwise it leaves the pool as by `Close`: in shutdown exactly if it still has to be shut down, else freed; no count against a limit grows |
| ConnPool.Multi.OldestIdle | 3rd/source/curl-8.21.0/lib/conncache.c:308-334 | none exactly if none is idle; else the first of those idle for longest |
| ConnPool.Multi.OldestEvictable | 3rd/source/curl-8.21.0/lib/conncache.c:336-368 | none exactly if none may go; else one unused for longest, in whatever order the pool is walked |
| ConnPool.Multi.CheckDest | 3rd/source/curl-8.21.0/lib/conncache.c:392-431 | ends; says OK exactly if the count is below the limit, which is exactly if fewer connections than the limit were busy before; what is left of the bundle is the old one after as many evictions of the longest idle as the limit asks for, and no other bundle changes; if not OK, nothing is left that could be closed; none is cut off that should be shut down |
| ConnPool.Multi.CheckTotal | 3rd/source/curl-8.21.0/lib/conncache.c:433-459 | ends; says OK exactly if the total is below its limit, which is exactly if fewer than the limit could not be evicted before; closes only those that may go, none before one unused for longer; if not OK, nothing is left that could be closed; none is cut off that should be shut down |
| ConnPool.Multi.CheckLimits | 3rd/source/curl-8.21.0/lib/conncache.c:370-464 | OK leaves both counts strictly below their limits; each refusal is given exactly if a count of the old state says so: the busy connections of the destination, or those of the pool that neither limit can evict; then nothing more could be closed; connections in use stay |
| ConnPool.Multi.NowIdle | 3rd/source/curl-8.21.0/lib/conncache.c:553-593 | says truly whether the connection was kept; over the cap exactly one goes, the longest unused of those that may, and is shut down if that is not done at once |
| ConnPool.Multi.NetworkChanged | 3rd/source/curl-8.21.0/lib/conncache.c:842-873 | ends with exactly the connections in use still in the pool, and none of them to be reused; the others were shut down one after the other, with the exact list of shutdowns that this leaves |
| ConnPool.Multi.Perform | 3rd/source/curl-8.21.0/lib/cshutdn.c:228-264 | exactly the connections whose shutdown is done are freed, the others stay in order |
| ConnRuns.Connect | 3rd/source/curl-8.21.0/lib/url.c:2430-2465 | a connection is added exactly after an OK, and then both limits hold for it even if they did not before, or, for a sub-request, after the answer that the total limit is reached, whose exact condition is given |
| ConnRuns.Run | 3rd/source/curl-8.21.0/lib/url.c:2341-2465 | over any run the live connections and those in shutdown together exceed the total limit by at most the `file:` transfers and overriding sub-requests, and a host limit by at most the `file:` transfers to it; so both hold over any run without these, and the total one after every OK; no connection is lost |
| ConnRuns.FileGoesOver | 3rd/source/curl-8.21.0/lib/url.c:2341-2356 | two `file:` transfers and a total limit of one |
| ConnRuns.SubRequestGoesOver | 3rd/source/curl-8.21.0/lib/url.c:2438-2465 | a sub-request goes over a total limit of one when the connection in the pool must stay |
| HappyOrder.InterleaveAt | 3rd/source/curl-8.21.0/lib/cf-ip-happy.c:463-480 | the alternating iterators take the addresses in the order of the interleaved lists of section 4 of RFC 8305, IPv6 first |
| HappyOrder.TriedOnce | 3rd/source/curl-8.21.0/lib/cf-ip-happy.c:137-158 | no address is tried twice |
| HappyOrder.InOrderSnoc | 3rd/source/curl-8.21.0/lib/cf-ip-happy.c:463-480 | taking the next address continues the order |
| HappyAttempts.PolledOngoing | 3rd/source/curl-8.21.0/lib/cf-ip-happy.c:245-267 | asking the attempts never makes more of them ongoing |
| HappyAttempts.DropOngoingTally | 3rd/source/curl-8.21.0/lib/cf-ip-happy.c:362-389 | discarding leaves so many fewer ongoing attempts |
| HappyAttempts.AllFreed | 3rd/source/curl-8.21.0/lib/cf-ip-happy.c:319-332 | when no attempt is left, every filter but the installed one was freed exactly once |
| HappyAttempts.LastErrorIs | 3rd/source/curl-8.21.0/lib/cf-ip-happy.c:550-560 | the error reported is that of the last attempt in the list that has one |
| HappyEyeballs.Ballers.constructor | 3rd/source/curl-8.21.0/lib/cf-ip-happy.c:334-360 | a race starts valid, with no attempt and IPv6 to come first |
| HappyEyeballs.Ballers.ConnectAttempt | 3rd/source/curl-8.21.0/lib/cf-ip-happy.c:245-267 | one attempt advances by the outcome of its connect; a failed one has its filter freed |
| HappyEyeballs.Ballers.Poll | 3rd/source/curl-8.21.0/lib/cf-ip-happy.c:407-437 | every attempt up to the first connected one is asked once; the counts of ongoing and inconclusive ones are right |
| HappyEyeballs.Ballers.CheckRunning | 3rd/source/curl-8.21.0/lib/cf-ip-happy.c:407-437 | there is a winner exactly if an attempt connects, and it is the first that does; all others are freed |
| HappyEyeballs.Ballers.Prune | 3rd/source/curl-8.21.0/lib/cf-ip-happy.c:362-389 | exactly the oldest ongoing attempts beyond the limit are discarded, all others stay in order |
| HappyEyeballs.Ballers.TakeAddress | 3rd/source/curl-8.21.0/lib/cf-ip-happy.c:463-480 | the next address of the other family than the last if there is one, else of the same; none exactly if all were taken |
| HappyEyeballs.Ballers.Launch | 3rd/source/curl-8.21.0/lib/cf-ip-happy.c:487-517 | room is made, then the new attempt is last; the limit holds; attempts beside others are a delay apart |
| HappyEyeballs.Ballers.RetryOne | 3rd/source/curl-8.21.0/lib/cf-ip-happy.c:519-541 | exactly the first inconclusive attempt is restarted with a new filter |
| HappyEyeballs.Ballers.Wake | 3rd/source/curl-8.21.0/lib/cf-ip-happy.c:563-596 | timed out exactly if the time left is negative; another pass exactly if addresses are left and the delay is over or the time left is 0 |
| HappyEyeballs.Ballers.ReportError | 3rd/source/curl-8.21.0/lib/cf-ip-happy.c:550-560 | the error of the latest failed attempt |
| HappyEyeballs.Ballers.Pass | 3rd/source/curl-8.21.0/lib/cf-ip-happy.c:391-597 | one evaluation, with the exact condition of each outcome: who wins; an attempt is started exactly when there is an address and nothing is ongoing or the delay is over, and restarted exactly when there is none, nothing is ongoing, one gave no proper answer and the delay is over, unless its filter cannot be created; giving up exactly when nothing is left; and when it waits or is due |
| HappyEyeballs.Ballers.Install | 3rd/source/curl-8.21.0/lib/cf-ip-happy.c:881-891 | exactly the winner's filter is installed, and every other filter was freed exactly once |
| HappyEyeballs.Ballers.Clear | 3rd/source/curl-8.21.0/lib/cf-ip-happy.c:319-332 | every filter that is not installed was freed exactly once |
| HappyRuns.TriedInOrder | 3rd/source/curl-8.21.0/lib/cf-ip-happy.c:137-158 | the addresses tried are different and, if DNS was done first, a beginning of the interleaved lists |
| HappyRuns.Passes | 3rd/source/curl-8.21.0/lib/cf-ip-happy.c:391-597 | over any number of passes, however they end: at most the limit of attempts are ongoing and they start at the pace of section 5 of RFC 8305; each pass starts or restarts an attempt, wins or gives up exactly when it is time to; giving up means that all addresses were tried and no attempt is ongoing or inconclusive; with DNS done before or at the first pass, none is started early |
| HappyRuns.EachPassTriesOne | 3rd/source/curl-8.21.0/lib/cf-ip-happy.c:391-597 | so while there are addresses, nothing ends the race and the delay is over at each pass, each pass tries one more address |
| HappyRuns.Race | 3rd/source/curl-8.21.0/lib/cf-ip-happy.c:840-919 | over any number of passes: a winner is the only filter not freed; after a failure all are freed once; won, failed or going on, order and pace are kept |
| LogFiles.ShiftDrops | common/private/logger/daily_size_rotating_file_mt_sink.hpp:426-464 | a rotation takes exactly the oldest backup off the chain |
| LogFiles.MovedShifts | common/private/logger/daily_size_rotating_file_mt_sink.hpp:436-450 | one step of the renaming loop, with or without a gap in the chain |
| LogFiles.RotatedRetains | common/private/logger/daily_size_rotating_file_mt_sink.hpp:307-324 | rotation and write leave an end of what there was and the record |
| DailySink.AcceptedSizes | common/private/logger/daily_size_rotating_file_mt_sink.hpp:272-274 | a size is refused exactly if it is 0 or so large that rounding it up wraps around |
| DailySink.Sink.Create | common/private/logger/daily_size_rotating_file_mt_sink.hpp:253-284 | the constructor throws exactly for a bad time or a refused size |
| DailySink.Sink.RotateByTime | common/private/logger/daily_size_rotating_file_mt_sink.hpp:387-405 | the base name changes exactly when the rotation time has come, and the next one is in the future |
| DailySink.Sink.RotateChain | common/private/logger/daily_size_rotating_file_mt_sink.hpp:426-464 | every file of the chain has its index one higher, gaps included; all other files stay |
| DailySink.Sink.Write | common/private/logger/daily_size_rotating_file_mt_sink.hpp:307-324 | a record that fits is appended and nothing else happens; otherwise the files move up and it is alone in the new file |
| DailySink.Sink.SinkIt | common/private/logger/daily_size_rotating_file_mt_sink.hpp:287-327 | retention and capacity of one write: an end of the old chain and the record is left, all of it without backups; with backups every file of the chain is within the size, is this record alone, or was there before |
| LogLines.CountLines | common/private/logger/count_rotating_file_mt_sink.hpp:153-181 | the block-wise count is the number of lines of the whole file |
| LogLines.LineAdds | common/private/logger/count_rotating_file_mt_sink.hpp:118-124 | a one-line record adds one line, or none if it completes one, and leaves the file ended |
| LogLines.LinesOfRecords | common/private/logger/count_rotating_file_mt_sink.hpp:111-132 | one-line records appended to any file add one line each, but for the first if it completes a line |
| CountSink.Sink.RotateFiles | common/private/logger/count_rotating_file_mt_sink.hpp:229-276 | every file of the chain has its index one higher; without backups nothing happens to the files |
| CountSink.Sink.AdjustForStrict | common/private/logger/count_rotating_file_mt_sink.hpp:185-211 | in strict mode with backups the count is no less than the lines of the file about to be opened, and below the maximum |
| CountSink.Sink.SinkIt | common/private/logger/count_rotating_file_mt_sink.hpp:81-133 | an end of the old chain and the record is left, all of it without backups; for any record, mode and state the write keeps every file within the maximum exactly if what the record is written behind has room for it, which is nothing if it rotates first and else the file; so in strict mode a one-line record always keeps it with backups, and without backups exactly if the file has room; the count is right exactly with backups or below the maximum |
| CountSink.CapacityLost | common/private/logger/count_rotating_file_mt_sink.hpp:127-132 | without backups, two records make a file of two lines, where the strict maximum is 1 |
| CountSink.LongRecord | common/private/logger/count_rotating_file_mt_sink.hpp:111-132 | with backups, one record of two lines makes a file too long for the strict maximum 1 |
| LogRuns.CountRun | common/private/logger/count_rotating_file_mt_sink.hpp:81-133 | over any number of records: an end of the old chain and all records is left; without backups all of it, and each one-line record adds its line; in strict mode with backups one-line records keep every file within the maximum |
| LogRuns.DailyRun | common/private/logger/daily_size_rotating_file_mt_sink.hpp:287-327 | for every base name, over any number of records at any times: what is left is an end of what was written under it, and with backups every file, current or not, is within the size, is one record alone, or was there before |
| DateFormat.FormatDate | common/private/logger/daily_size_rotating_file_mt_sink.hpp:126-227 | the loop computes `Format`, and so reads every character once |
| DateFormat.FormatSplit | common/private/logger/daily_size_rotating_file_mt_sink.hpp:126-227 | a format that does not end with a quote and one that starts with a quote are read one after the other |
| DateFormat.QuotingIsExact | common/private/logger/daily_size_rotating_file_mt_sink.hpp:126-151 | quoted text with its quotes doubled comes out as it is between what is before and after it, exactly if it is not made of quotes only; no quote may be open or next to it |
| DateFormat.OpeningQuote | common/private/logger/daily_size_rotating_file_mt_sink.hpp:126-151 | for text of quotes only, one quote too many comes out, and the rest of the format is read as usual |
| DateFormat.DateTokens | common/private/logger/daily_size_rotating_file_mt_sink.hpp:167-188 | what the tokens for year, month and day say, as numbers, and in how many digits |
| DateFormat.TimeTokens | common/private/logger/daily_size_rotating_file_mt_sink.hpp:189-220 | the same for hour, minute, second and milliseconds, which are cut to fewer digits |
| DateFormat.TwelveHours | common/private/logger/daily_size_rotating_file_mt_sink.hpp:112-121 | the hour on the twelve-hour clock and the half of the day give the hour |
| DateFormat.NameTokens | common/private/logger/daily_size_rotating_file_mt_sink.hpp:89-110 | names of days, counted from Sunday, and of months, in full or their first three letters |
| DateFormat.OtherTokens | common/private/logger/daily_size_rotating_file_mt_sink.hpp:221-223 | any other character stays, as often as it is there |
| DateFormat.OneNameADay | common/private/logger/daily_size_rotating_file_mt_sink.hpp:162-226 | `yyyy-MM-dd` gives two times the same name exactly if they are of the same day |
| Digits.ValueOfPadded | common/private/logger/daily_size_rotating_file_mt_sink.hpp:42-48 | a padded number can be read back |
| Words.UnfoldFold | common/private/logger/id8generator.hpp:41-44 | a word xored with its own shift by more than a third of its width can be restored |
| Words.TimesInverts | common/private/logger/id8generator.hpp:42-43 | a multiplication by a factor with an inverse modulo 2^64 can be undone |
| Words.ShiftRightDivides | common/private/logger/id8generator.hpp:42-44 | the shift is the division it stands for |
| Words.EvenAndNext | common/private/logger/id8generator.hpp:78-84 | an even number and the next one differ in the last bit only |
| Id8.UnmixMix | common/private/logger/id8generator.hpp:39-45 | mixing loses nothing |
| Id8.MixUnmix | common/private/logger/id8generator.hpp:39-45 | every number is the mix of one |
| Id8.Pow62 | common/private/logger/id8generator.hpp:47-52 | the power modulo 2^64, and the power itself exactly up to 62^10 |
| Id8.DecodeEncode | common/private/logger/id8generator.hpp:54-97 | the digits of a number below 62^n can be decoded |
| Id8.EncodeDecode | common/private/logger/id8generator.hpp:54-97 | every string of base-62 digits is the encoding of one number |
| Id8.Generator.Next | common/private/logger/id8generator.hpp:76-99 | the id of the counter, the time and the process; the counter advances, around at 2^64 |
| Id8.SameSeed | common/private/logger/id8generator.hpp:78-84 | two calls of a process mix the same seed exactly if their counts differ in the bits that their times differ in |
| Id8.SeedsInARow | common/private/logger/id8generator.hpp:78-84 | so two calls in a row do exactly if the clock changes in the bits that the counter changes in |
| Id8.SeedsOfProcesses | common/private/logger/id8generator.hpp:78-84 | at one count and time two processes mix the same seed exactly if their numbers agree in the low 32 bits |
| Id8.SameId | common/private/logger/id8generator.hpp:84-98 | two ids are the same exactly if the seeds are, or the seeds are different and one is the mixer's preimage of a number congruent to the other's mix modulo 62^8 |
| Id8.SeedsDiffer | common/private/logger/id8generator.hpp:78-84 | at one time and in one process different counts give different seeds and different mixed numbers |
| Id8.NotUnique | common/private/logger/id8generator.hpp:75-99 | two calls in a row of one generator return the same id, for every even counter and clock, if the clock goes on by one tick |

## Left out

- Bufq.Queue.Slurp: a soft-limited queue without a maximum reads for as long as the reader fills what is asked for, without an end for some readers; for those nothing is said beyond `Bufq.Queue.SlurpForever`, even when memory runs out, which ends the loop.
- BufqRuns.Run: a run in which a soft-limited queue is slurped without a maximum is for readers that stop again and again; all other runs are for all readers.
- Bufq.Queue.WritePass: when memory runs out in the middle of a write, bytes that went in are not reported; the contract then only says that no more are reported than went in.
- BufqChunk.Chunk.Append: the bytes of a chunk are a sequence of fixed length that the chunk replaces, not memory behind it; the overflow test of its size is part of the failure of an allocation.
- `Curl_bufq_free`, `Curl_bufcp_free` and the thin `char` variants of write and read.
- CookieJar.Jar.Add: starts from the parsed cookie; the Set-Cookie parser, the public suffix list, dates and files are parameters or not part of this model, and so is running out of memory or of creation numbers.
- CookieJar.Jar.GetList: compared with the standard for cookies whose path, if any, starts with a slash, as every path does that the code stores (`CookieMatch.StoredPaths`, `CookieNetscape.ParsedIs`); when 150 cookies are listed, which of the matching ones they are is the order of the bucket, and the contract says so in terms of the bucket only.
- CookieList.SortUnique: `qsort` is replaced by an insertion sort; on different creation numbers every sorting method gives the same list.
- The buckets of the jar are sequences of cookies as values; the linked lists through the cookies are not modelled.
- ConnPool.Multi.CheckLimits: one pool and one multi handle; time is in whole milliseconds, and a shared pool, locks and the search for a connection to reuse are left out.
- ConnPool.Multi.Perform: the timer for the next attempt is left out.
- Dead connections, upkeep and the destruction of a pool: they depend on sockets and protocol handlers that are not part of this model.
- HappyEyeballs.Ballers.Pass: one pass; that the loop of passes ends is not claimed, since it spins while the time left is 0 and addresses are left. `HappyRuns.Race` covers any number of passes.
- HappyEyeballs.Ballers.Launch: attempts are values in the list that the filter updates; there is no aliasing between them. Unix sockets are the case of an empty IPv6 list.
- HappyRuns.Race: starts with the first pass; the check of the time left when the filter is set up, and errors of DNS itself, are left out.
- Shutdown, polling and queries of the connect filter: dispatch to the filters below.
- DailySink.Sink.SinkIt: renames and removals succeed, nobody else writes to the directory, files of different base names do not collide, and base name and rotation time come from functions of the time; `{date}` is replaced in the name pattern outside of this model.
- DateFormat.FormatDate: years are not negative, and local time is a parameter.
- Id8.Generator.Next: the random seed, the clock and the process number are parameters; the atomic counter is an ordinary one.
- Logger set-up, the HTTP and YAML wrappers, and the rest of libcurl: forwarding layers, or behaviour that depends on code that is not part of this model.
