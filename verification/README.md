# symphony: verified models

symphony is a TLS/SNI proxy: it peeks at a client's ClientHello, picks a route by server name, admits
or refuses the client, terminates TLS or passes it on, and can hand a connection to a peer node when
its own upstream is down, draining or much busier. This project models the parts where that is hard
and proves what they are for. `dafny verify dfyconfig.toml` checks all of it.

| files | what they model |
|---|---|
| `HttpHead`, `HttpHeadLaws`, `HttpFields`, `HttpStream`, `HttpFraming`, `HttpBroken`, `HttpReframing`, `HttpAcceptance` | rewriting of HTTP/1 requests on one connection: heads, body framing, chunked bodies, why the upstream frames the rewritten stream as the client framed the original, and which streams are accepted |
| `HttpReads`, `HttpCuts`, `HttpBodies`, `HttpPump` | the same as it runs, over reads of any size, how far its limits reach, and exactly when the way the stream is cut into reads matters |
| `HttpResponse`, `HttpWritten`, `HttpResponsePump` | response heads and bodies, which response answers which request, requests and responses as they are written out, and the response pump as it runs |
| `HttpTunnel`, `HttpMatching`, `HttpStuck`, `HttpProgress` | the request pump and the response pump as two interleaved machines, with Upgrade and CONNECT verdicts between them; when the request pump can never go on, and that every answer is got to |
| `Protection`, `ProtectionExact`, `ProtectionLaws`, `Gates`, `ProtectionTable`, `TokenRace` | token buckets, the penalty box, connection counts and eviction, the lists that come before them; checks of one bucket interleaved at their loads and compare-and-swaps |
| `TlsCache`, `TlsCacheExact` | the cache of server configurations |
| `Health`, `Router`, `RouteTable`, `RouteLaws`, `BuildLaws`, `ReloadLaws`, `HealthLaws`, `ServiceLaws` | route table builds, resolution, and any sequence of reloads with any certificates failing |
| `Cooldown`, `Forwarding`, `ForwardingLaws`, `ForwardingExact`, `Failover` | peer cooldowns, replay to peers until one answers, and the time all of it may take |
| `Spill`, `SpillExact` | the spill-over controller |
| `Sni`, `SniLaws`, `SniExact`, `Ja4`, `Ja4Laws`, `Ja4Layout`, `Ja4Separation` | putting a ClientHello back together, and the JA4 fingerprint: how one reads, and when two are the same |
| `Ingress`, `IngressLaws`, `IngressExact` | PROXY v2 headers, load queries and load answers between nodes |
| `Basics`, `Bytes`, `Text`, `TextLaws`, `Utf8Laws`, `Wrappers` | numbers, byte strings, UTF-8, optional values; what trimming, splitting and reading a number come to |

Where the source updates state in place there is a class with methods, or a method with a loop, and
its contract equates the new state with a function of the old; the laws are about those functions.
What such a function computes is also stated without it: as the bytes, written out, that are read as
a value, as the conditions, in the input's own fields, under which each result comes about, or as the
trace of a run.
Concurrency is modelled by runs: a list of events, or of steps of several machines, in any order.

Time, the network, other nodes' behaviour, the outcome of a certificate build and the hash functions
are parameters, so every theorem is for all of them. Floating point is modelled over `real`.

What the models show beyond what was expected:

- The limits on a request head and on a control line are not what the constants say. The first head
  of a connection is framed under every cut of the stream into reads if and only if it ends by byte
  65537, and refused under every cut if and only if it ends past byte 69632; in between the cut
  decides (`HttpReads.HeadLimitIsExact`). For a control line the two bounds are 1025 and 1280 bytes,
  unless the whole line is in the buffer already (`HttpReads.LineLimitIsExact`), which can be so only
  for one that ends within 4095 bytes of the head (`HttpCuts.RefusedStops`). For whole streams this
  is exact: what the pump does is independent of the cut if and only if everything is within its lower
  bound, or the first thing that is not is past its upper one (`HttpPump.AnyTwoCuts`,
  `HttpPump.CutsDiffer`).
- The request pump can wait forever. It does if and only if it waits for the verdict of a tunnel
  request and the upstream stream holds no final response for it any more; the end of the response
  pump does not release it (`HttpStuck.StuckExactly`). A CONNECT to an upstream that closes without
  a word is enough (`HttpStuck.ConnectWithoutAnswerSticks`). Only the caller's timeouts end that.
- Checks of one bucket that overlap can refill it twice for the same time, and then grant more than
  was earned (`TokenRace.OverlapRefillsTwice`). How much more is accounted for exactly
  (`TokenRace.RaceConserves`), and it is nothing as long as no check reads the stamp while another
  is between reading and advancing it (`TokenRace.ExclusiveRateBound`).
- Eviction is not quite invisible: the first check after it is answered alike, but later ones differ
  unless the kept bucket would bear the same stamp (`ProtectionLaws.EvictionShowsExactly`).
- A reload would bring a down route up if its only upstream became a socket group without paths.
  That is the exact condition (`ReloadLaws.DownAfterReloadExactly`), and configuration never
  produces such a group (`ReloadLaws.ConfiguredHasEndpoints`), so no reload does.
- The bound on report errors under which nodes never spill in a circle is the best possible: at
  exactly half the margin two equally loaded nodes go on spilling to each other
  (`Spill.HalfMarginIsSharp`).
- An admission survives packing only for a target below 65536 and a time limit below 2^38 ms; a
  larger time limit loses its high bits, which makes it expire early, never late
  (`Spill.UnpackPack`, `Spill.RoundTrip`).

## Model

| member | source | states |
|---|---|---|
| `HttpHead.RewriteRequestHead` | src/http_proxy.rs:373-420 | The loop over a head's lines computes the specified rewrite: the same error at the first refused line, else the same bytes. |
| `HttpHead.InsertOwned` | src/http_proxy.rs:380-384 | The owned headers that have a value are inserted right after the request line, in order. |
| `HttpHeadLaws.ParsePrint` | src/http_proxy.rs:94-142 | Any header block is exactly its request line and field lines printed again. |
| `HttpHeadLaws.PrintedBlock` | src/http_proxy.rs:32-63 | A printed head is found whole, as one block, at the front of any stream, and parses back to itself. |
| `TextLaws.TrimExactly` | src/http_proxy.rs:116-127 | Trimming takes away the white space at both ends and nothing else. |
| `TextLaws.SplitJoined` | src/http_proxy.rs:137-142 | Splitting at a separator gives back the pieces it joins. |
| `TextLaws.EqIgnoreCaseExactly` | src/http_proxy.rs:94-142 | Two texts are equal ignoring case if and only if they are, letter for letter. |
| `TextLaws.ParseU64Exactly` | src/http_proxy.rs:145-151 | A number is read if and only if the text is a numeral of it that fits in 64 bits, with at most a plus sign before it. |
| `Utf8Laws.Utf8Exactly` | src/http_proxy.rs:536-543 | Bytes are a text if and only if they are scalar values, each in its encoding. |
| `Utf8Laws.TrimTextExactly` | src/http_proxy.rs:536-543 | Trimming a text takes away its white space at both ends, by code point. |
| `HttpHeadLaws.RewriteHeadMeaning` | src/http_proxy.rs:373-420 | A rewritten head is the parsed head with its owned fields replaced and all others kept in order; it is refused with the error of the first bad line, if there is one. |
| `HttpFields.AcceptedNames` | src/http_proxy.rs:388-406 | A field line is refused if and only if it begins with white space, has no colon, or has an empty name or one with white space in it. |
| `HttpFields.FoldsAndColons` | src/http_proxy.rs:388-406 | And for which of these reasons. |
| `HttpFields.OwnedExactly` | src/http_proxy.rs:346-420 | A header is owned if and only if some rewrite has its name, in any case. |
| `HttpFields.RequestExactly` | src/http_proxy.rs:165-190 | A request is a CONNECT or a HEAD if and only if that is its first word in any case, and an upgrade if and only if it is no CONNECT, has an Upgrade field, and some Connection field lists upgrade. |
| `HttpReframing.RewriteKeepsFraming` | src/http_proxy.rs:425-467 | Rewriting changes neither the method nor the upgrade nor the body framing read from a head. |
| `HttpReframing.ChunksStable` | src/http_proxy.rs:524-563 | A chunked body ends where it did whatever bytes follow it. |
| `HttpReframing.NextRewritten` | src/http_proxy.rs:590-660 | The upstream, framing a forwarded request with anything behind it, finds exactly that request. |
| `HttpReframing.TurnForwards` | src/http_proxy.rs:590-660 | A turn of the pump that goes on has forwarded exactly the client's next request, rewritten, with its body untouched. |
| `HttpReframing.PumpExplained` | src/http_proxy.rs:590-660 | Every run of the pump, failed ones included, forwarded a number of whole requests in order, then the raw rest after a tunnel, nothing after an end, at most one request cut short after an error. |
| `HttpReframing.Reframing` | src/http_proxy.rs:590-660 | Parsing the forwarded bytes of any accepted stream with the same rules gives the same requests, rewritten, with byte-identical bodies, and the same tunnel. |
| `HttpReframing.OwnedExactlyOnce` | src/http_proxy.rs:346-420 | Each owned header is in the forwarded head exactly once with symphony's value, or not at all when there is none; no copy of the client's survives. |
| `HttpFraming.FramingIsExact` | src/http_proxy.rs:425-467 | For every list of fields: a body is framed if and only if all lengths are the same number and, with a transfer coding, there is no length and the last element of all the lists is chunked; which framing that is; and otherwise for which error it is refused. |
| `HttpFraming.LastCodingCounts` | src/http_proxy.rs:433-438 | A transfer coding `x,y` with no comma in `y` counts as chunked if and only if `y` without the white space around it is that word in any case, whatever `x` is; a value without a comma if and only if it is itself. |
| `HttpFraming.ChunkSizeExactly` | src/http_proxy.rs:536-543 | A line gives a chunk size if and only if it is a hexadecimal numeral of it that fits in 64 bits, with white space around it and any extension behind a semicolon. |
| `HttpFraming.ChunkedBodyIsFramed` | src/http_proxy.rs:524-563 | A body is found to end at some byte if and only if what comes before is chunks, each with a size line that gives its length, a last size line, trailers and an empty line. |
| `HttpBroken.ChunksBreak` | src/http_proxy.rs:524-563 | A chunked body that breaks off is whole chunks and then a size line that never ends or is none, too little data, no line end behind it, or trailers that never end; each with its own error, and with exactly what still goes upstream. |
| `HttpBroken.TurnEndsExactly` | src/http_proxy.rs:590-660 | How a turn of the request pump ends: with nothing sent when the stream is over, no head ends in it or the head is refused, and for which error; with the head and as much of the body as there is otherwise; and what each verdict on a tunnel does. |
| `HttpWritten.RequestIsWritten` | src/http_proxy.rs:590-660 | The first request of a stream is this head and this body, and ends here, if and only if the bytes up to here are the head printed and a body that fits its fields: none, that many bytes, or chunks. |
| `HttpAcceptance.WholeRequestsGoThrough` | src/http_proxy.rs:590-660 | The pump forwards any number of whole, acceptable requests, rewritten, and goes on with exactly what follows them. |
| `HttpAcceptance.AcceptedExactly` | src/http_proxy.rs:590-660 | With no tunnel, the pump reaches the end without an error if and only if the stream is a sequence of whole requests with acceptable heads. |
| `HttpStream.PumpExtends` | src/http_proxy.rs:590-660 | What was written and announced stays written and announced. |
| `HttpReads.ReadHeaderBlock` | src/http_proxy.rs:32-63 | The incremental search finds the first blank line of the whole stream if and only if the reads reach it before the limit is seen to be passed, and loses no byte. |
| `HttpReads.ReadControlLine` | src/http_proxy.rs:492-519 | The same for a control line. |
| `HttpReads.ReachExactly` | src/http_proxy.rs:36-61 | From any number of bytes held: reads reach a place under every cut if and only if it is held or at most one past the limit, and under some cut if and only if it is held or at most a whole read past it. |
| `HttpReads.HeadLimitIsExact` | src/http_proxy.rs:32-63 | So the first head is framed under every cut if and only if it ends by one past the limit, and under none if and only if it ends more than 4096 past it. |
| `HttpReads.LineLimitIsExact` | src/http_proxy.rs:492-519 | The same for a control line, with 256, from any bytes carried over. |
| `HttpBodies.CopyExact` | src/http_proxy.rs:322-342 | Exactly the next n bytes are copied, or all there are and an error. |
| `HttpBodies.CopyBody` | src/http_proxy.rs:470-488 | The same over carried-over bytes and then the reader. |
| `HttpBodies.TakeLine` | src/http_proxy.rs:492-519 | The next control line is taken off the stream and nothing more. |
| `HttpBodies.CopyTrailers` | src/http_proxy.rs:545-554 | Trailers are copied verbatim up to the empty line. |
| `HttpBodies.CopyChunk` | src/http_proxy.rs:533-562 | One chunk is copied verbatim: size line, data, line end. |
| `HttpBodies.CopyChunkedBody` | src/http_proxy.rs:524-563 | A chunked body is copied verbatim, exactly as far as its framing holds. |
| `HttpBodies.CopyFramed` | src/http_proxy.rs:638-642 | A body of any framing is copied verbatim. |
| `HttpBodies.CopyToEnd` | src/http_proxy.rs:646-652 | Behind a tunnel everything up to the end of the stream is copied. |
| `HttpCuts.ForcedReaches` | src/http_proxy.rs:492-519 | A line within its limit is read under every cut; up to 256 past it under a cut that brings the limit's last byte alone; and one within 4095 bytes of the head under a cut that brings it all with the head. |
| `HttpCuts.RefusedStops` | src/http_proxy.rs:492-519 | Past both bounds it is refused under every cut, with whatever the pump can be holding; byte by byte, past the limit. |
| `HttpCuts.LineHolds` | src/http_proxy.rs:492-519 | Reading a line leaves less than a line's read in the buffer, or what was left of the head's. |
| `HttpCuts.HeadHolds` | src/http_proxy.rs:32-63 | Reading a head leaves less than a head's read. |
| `HttpBodies.ChunksStrict` | src/http_proxy.rs:524-563 | Byte by byte a chunked body stops exactly if a line is past its limit, at the first such line; under every cut exactly if that line is past all reach. |
| `HttpBodies.CopyMessage` | src/http_proxy.rs:635-642 | A head and its body are copied as framed; where a line past reach comes first, the copy stops right before it. |
| `HttpPump.ForwardBody` | src/http_proxy.rs:635-658 | After the head: body, then on, into the tunnel, or out, as the specification's turn says. |
| `HttpPump.ForwardOne` | src/http_proxy.rs:590-660 | One turn of the loop does what the specification's turn says of the whole rest of the stream, unless a limit is exceeded. |
| `HttpPump.RewriteRequestStream` | src/http_proxy.rs:590-660 | The whole loop writes, announces and ends as a function of the stream alone; past a limit it has written only a prefix of that, and past what any cut can reach it always stops right there. |
| `HttpPump.AnyTwoCuts` | src/http_proxy.rs:590-660 | Any two ways of cutting one stream into reads give the same bytes, the same announcements and the same end, if everything is within its limit or the first thing that is not is past reach; and which these are. |
| `HttpPump.CutsDiffer` | src/http_proxy.rs:590-660 | And otherwise not: for every other stream, requests, rewrites and answers there are two cuts under which the pump does different things. |
| `HttpTunnel.StepKeepsInv` | src/http_proxy.rs:567-748 | Every step of either pump, failed reads and writes and exceeded limits included, keeps responses matched to requests in order and verdicts true to them. |
| `HttpTunnel.RunRefinesPump` | src/http_proxy.rs:590-748 | In every interleaving the request pump, broken off or not, is on its way to exactly what the sequential pump does for the same answers. |
| `HttpMatching.ResponsesMatchRequests` | src/http_proxy.rs:687-748 | In every interleaving the client has got exactly the beginning of the upstream stream, and the k-th final response of that stream, interim ones aside and bodies framed by HEAD, status, length, chunks or the end, answered the k-th request. |
| `HttpMatching.TunnelGating` | src/http_proxy.rs:567-748 | What has gone upstream is the beginning of what the sequential pump sends; bytes go raw only behind a request whose own response in the upstream stream was 101 (Upgrade) or 2xx (CONNECT). |
| `HttpMatching.NothingWhileWaiting` | src/http_proxy.rs:644-658 | While a verdict is outstanding nothing is read from the client or sent upstream. |
| `HttpMatching.FinishedRun` | src/http_proxy.rs:590-748 | A finished request pump has sent, announced and ended exactly as the sequential one, in every interleaving, also after the upstream has closed; one that broke off has sent and announced a beginning of that. |
| `HttpProgress.RespondIsExact` | src/http_proxy.rs:697-747 | One response: an interim head only passes; a final one waits for a request, and ends the pump when none can come; else the oldest request gets it, with a verdict if it asked for a tunnel, and what follows is refused, carried or relayed. |
| `HttpProgress.LeftComes` | src/http_proxy.rs:687-748 | From anywhere in any run the response pump can go on to every answer still to come. |
| `HttpProgress.AllAnswersCome` | src/http_proxy.rs:687-748 | Any run in which the response pump is not stopped from outside can be continued until every answer the upstream stream has for the announced requests has gone to its own. |
| `HttpProgress.RunCanFinish` | src/http_proxy.rs:590-748 | For every client and upstream stream there is an interleaving in which the request pump, unbroken, comes to its end, unless it gets stuck for want of an answer. |
| `HttpProgress.BreakIsExact` | src/http_proxy.rs:590-660 | A failed read or write takes the request pump down wherever it reads or writes, and only there. |
| `HttpStuck.StuckForever` | src/http_proxy.rs:644-658 | A pump that waits for a verdict the upstream stream has no answer to stays there on every run. |
| `HttpStuck.StuckExactly` | src/http_proxy.rs:765-782 | An unfinished request pump can never go on if and only if it waits for a verdict the upstream stream holds no answer to; once the response pump has ended, whenever it waits. |
| `HttpStuck.UnansweredTunnelSticks` | src/http_proxy.rs:644-658 | It gets there for every first request that asks for a tunnel and every upstream stream without a final response. |
| `HttpStuck.ConnectWithoutAnswerSticks` | src/http_proxy.rs:765-782 | For example for a CONNECT and an upstream that closes at once. |
| `HttpResponse.AnswersExtend` | src/http_proxy.rs:687-748 | More announced requests never change which response answers an earlier one. |
| `HttpWritten.StatusExactly` | src/http_proxy.rs:171-179 | A response has a status if and only if the second word of its first line is a numeral of it below 65536. |
| `HttpWritten.FollowingWritten` | src/http_proxy.rs:671-685 | What follows a final head, from its fields and its request: nothing behind HEAD, 204 and 304, a body by its chunks or its length, whole or cut short, and otherwise everything. |
| `HttpWritten.ResponseIsWritten` | src/http_proxy.rs:687-748 | A response written out, head, body and anything behind it, answers the next request with its own status, and the rest of the stream answers the others; an interim one answers none, and one that opens a tunnel, was never asked for, or has no framing is the last. |
| `HttpResponsePump.RelayAnswers` | src/http_proxy.rs:687-748 | The requests the response pump answers, and with what, are those the framing of the upstream stream gives. |
| `HttpResponsePump.RelayBody` | src/http_proxy.rs:723-746 | After a final head: nothing, the rest raw, or the body as framed, whole or broken. |
| `HttpResponsePump.RelayOne` | src/http_proxy.rs:697-747 | One turn of the loop does what the whole rest of the stream says, unless a limit is exceeded. |
| `HttpResponsePump.ForwardResponseStream` | src/http_proxy.rs:687-748 | However the upstream's bytes arrive, the pump relays verbatim, answers and ends as a function of the stream and the announced requests; past a limit it has relayed only a beginning of that. |
| `ProtectionTable.RefillAndConsume` | src/protection.rs:140-182 | The refill and the debit, uninterrupted, compute the specified bucket step. |
| `ProtectionExact.TakeIsExact` | src/protection.rs:140-182 | A token is taken if and only if the bucket holds one, counting what was earned since its stamp, rounded down and within the ceiling and 32 bits; the stamp moves only when something was earned. |
| `TokenRace.AloneIsTake` | src/protection.rs:147-181 | A call that is not interrupted finishes within six steps of its loops and is exactly that bucket step. |
| `TokenRace.StepConserves` | src/protection.rs:147-181 | Every load and compare-and-swap of any call keeps the ceiling, never moves the stamp back, and keeps tokens held plus granted but for what a winning refill adds. |
| `TokenRace.RaceConserves` | src/protection.rs:147-181 | Over any interleaving of any number of calls the bucket stays under its ceiling, every token granted was held or added, and grants exceed what was held and earned at most by what was earned again for time already refilled. |
| `TokenRace.ExclusiveRateBound` | src/protection.rs:147-169 | If no call reads the stamp while another is between reading and advancing it, grants stay within what was held and earned. |
| `TokenRace.OverlapRefillsTwice` | src/protection.rs:160-168 | Otherwise they need not: two calls both refill for the same time and both are granted a token. |
| `ProtectionTable.IpEntry.constructor` | src/protection.rs:113-123 | A new entry has full buckets, no connections and no penalty. |
| `ProtectionTable.IpEntry.ReleaseOne` | src/protection.rs:126-132 | A release takes one off the count, never below zero. |
| `ProtectionTable.IpEntry.Debit` | src/protection.rs:312-332 | Which buckets are debited, and when the second one is. |
| `ProtectionTable.IpEntry.CheckAt` | src/protection.rs:301-400 | The check in place is the specified step and verdict. |
| `ProtectionExact.VerdictIsExact` | src/protection.rs:301-400 | Each verdict if and only if: penalised; else a bucket refuses; else no room; else allowed. |
| `ProtectionExact.CheckIsExact` | src/protection.rs:301-400 | What a check leaves: which bucket was asked, when the penalty is extended and to when, and the count. |
| `ProtectionTable.ProtectionState.GetOrCreate` | src/protection.rs:592-603 | The entry of an IP, created full when missing; no other entry changes. |
| `Gates.FindNetwork` | src/protection.rs:257-268 | The loop finds whether any network contains the address. |
| `Gates.HexExactly` | src/protection.rs:606-630 | A JA3 digest is read from exactly the text that spells it in pairs of hexadecimal digits. |
| `Gates.Pass` | src/protection.rs:256-296 | Each outcome if and only if: past everything when on the allow list; else blocked by address; else not to be trusted where a fingerprint list is configured; else on the one list; else on the other; else without a required name; else onward. |
| `Gates.GatesExactly` | src/protection.rs:256-296 | What these conditions are, in the fields of the lists and of the hello. |
| `ProtectionTable.ProtectionState.CheckState` | src/protection.rs:298-401 | Past the gates, a check updates exactly the entry of its IP, with the specified verdict. |
| `ProtectionTable.ProtectionState.CheckAt` | src/protection.rs:250-401 | A check that a gate decides touches no entry and takes no token; any other is the specified step; and which is which. |
| `ProtectionTable.ProtectionState.EvictAt` | src/protection.rs:546-590 | Eviction removes exactly the entries with no connection, full buckets and no running penalty. |
| `ProtectionExact.EvictedExactly` | src/protection.rs:546-590 | An entry is evicted if and only if it is not penalised, nothing is open and every bucket in use would be at its ceiling. |
| `ProtectionExact.EventIsExact` | src/protection.rs:546-603 | An event changes the entry of its own address and no other, and how. |
| `ProtectionLaws.TakeConserves` | src/protection.rs:140-182 | A grant costs one token of credit, whatever the refill. |
| `ProtectionLaws.FullIsFresh` | src/protection.rs:546-590 | A bucket that eviction calls full has at least the credit of a new one. |
| `ProtectionLaws.CheckTakes` | src/protection.rs:301-400 | A check does one bucket step or nothing to either bucket; it is a grant if and only if a token was taken, boxed and refused checks included; an admission is a grant of both. |
| `ProtectionLaws.StepConserves` | src/protection.rs:301-400 | No event adds credit, and every token taken is paid for: no check, no release, no eviction. |
| `ProtectionLaws.GrantsSpendCredit` | src/protection.rs:301-400 | All tokens taken in a run, whatever the verdicts, are paid for out of credit. |
| `ProtectionLaws.RateBound` | src/protection.rs:140-182 | In any window from any reachable state the tokens granted to an IP stay under a full bucket plus what the window earns, for each bucket. |
| `ProtectionLaws.AdmittedIsGranted` | src/protection.rs:301-400 | Connections admitted are at most the tokens granted, of either bucket. |
| `ProtectionLaws.RateBoundInRun` | src/protection.rs:301-400 | Both bounds for any window of any run from an empty table, evictions included. |
| `ProtectionLaws.WaitingEarnsToken` | src/protection.rs:140-182 | A check a whole token's time after the last refill is granted, whatever the bucket held. |
| `ProtectionLaws.SpacedChecksAreGranted` | src/protection.rs:140-182 | Checks spaced a token apart are all granted. |
| `ProtectionLaws.EvictionIsInvisible` | src/protection.rs:546-603 | A check answers, and leaves tokens, count and penalty, as if the entry had never been evicted. |
| `ProtectionLaws.EvictionShowsExactly` | src/protection.rs:546-603 | A bucket evicted as full and made anew answers every later run of checks as if it had been kept if and only if the kept one would bear the same stamp, or no token fits in it. |
| `ProtectionLaws.EvictionNeverShows` | src/protection.rs:546-603 | A whole entry evicted and made anew answers every later run of checks and closes, penalties included, as if it had been kept, as long as each enabled bucket would bear the same stamp, or one of them has no room for a token. |
| `ProtectionLaws.CheckExtends` | src/protection.rs:304-379 | An exhausted debit extends the penalty, nothing shortens it, and a boxed IP is never allowed. |
| `ProtectionLaws.BoxIsLatestPenalty` | src/protection.rs:304-379 | After any run an IP is boxed at a time if and only if that time is before the latest penalty end of its exhausted debits. |
| `ProtectionLaws.NoAllowDuringPenalty` | src/protection.rs:304-379 | Once rate-limited, an IP is not allowed again before the penalty ends, whatever comes between. |
| `ProtectionLaws.CountIsLiveConnections` | src/protection.rs:381-400 | In every run the counts are the live connections, no live entry is evicted, and the limit on them is never exceeded. |
| `TlsCache.TlsConfigCache.constructor` | src/tls.rs:40-51 | A new cache is empty. |
| `TlsCache.TlsConfigCache.RetainUsed` | src/tls.rs:70-74 | A commit keeps what was used or is held. |
| `TlsCache.TlsConfigCache.EvictUnreferenced` | src/tls.rs:86-93 | Eviction keeps what is held and doubles the threshold over it. |
| `TlsCache.TlsConfigCache.ClearUsed` | src/tls.rs:79-82 | A new build starts with no marks. |
| `TlsCache.TlsConfigCache.LookupOrBuild` | src/tls.rs:129-163 | A hit returns the cached object; a miss inserts the built one and may evict. |
| `TlsCache.TlsConfigCache.GetOrBuild` | src/tls.rs:106-116 | A lookup for a build also marks the key. |
| `TlsCacheExact.EntryIsExact` | src/tls.rs:70-163 | An entry is in the cache after an event if and only if it was there or was inserted, and was not dropped: by the start of a build or an overflow when nobody holds it, by a commit when the build did not ask for it either. |
| `TlsCacheExact.ThresholdIsExact` | src/tls.rs:86-93 | The threshold is set when entries are dropped for want of a holder: to twice what is left, at least 256. |
| `TlsCacheExact.HoldersAreExact` | src/tls.rs:129-163 | A request hands out exactly the configuration it found. |
| `TlsCacheExact.MarksAreRequests` | src/tls.rs:70-116 | Over any run the marked keys are those that requests of the build in progress have found. |
| `TlsCache.RunKeepsInv` | src/proxy.rs:820-849 | Every run of builds, commits, aborts, resolutions and drops keeps canonicity, filing and the size bound. |
| `TlsCache.OneConfigurationPerKey` | src/tls.rs:129-163 | Two holders of one key hold one object, and a lookup returns it. |
| `TlsCache.RequestIsCanonical` | src/tls.rs:129-163 | A request yields an object of its key, a new one only when nobody holds one. |
| `TlsCache.ScanIsAmortised` | src/tls.rs:86-93 | The size bound holds at rest, and a triggered scan visits at most twice the entries inserted since the last eviction. |
| `TlsCache.CommitRetires` | src/tls.rs:70-74 | A commit drops exactly the configurations neither asked for since the build began nor held. |
| `Health.SlotHealth.constructor` | src/balancer.rs:38-44 | A slot starts accepting, or refusing with a time stamp. |
| `Health.SlotHealth.MarkRefused` | src/balancer.rs:54-57 | A refusal stamps the slot with a time that is never 0. |
| `Health.SlotHealth.ClearIfUnchanged` | src/balancer.rs:59-65 | A probe clears the refusal it observed and no other. |
| `Health.ProbeClearsOnlyWhatItSaw` | src/balancer.rs:46-65 | Over any run of refusals and probes, no probe clears a refusal later than the one it observed. |
| `HealthLaws.TouchIsExact` | src/balancer.rs:46-65 | What a refusal and a probe do to a health word. |
| `Health.WithHealth` | src/balancer.rs:189-200 | Every slot of a rebuilt destination is tracked, sharing the health of its path if there was one. |
| `RouteTable.BuildRouteTable` | src/router.rs:586-923 | The build's two passes compute the specified table. |
| `RouteLaws.MatchIsParent` | src/router.rs:278-285 | A wildcard matches a name if and only if its suffix is the name minus its first label. |
| `RouteLaws.BuiltReflects` | src/router.rs:606-636 | After any number of specs the table is what the deciding specs so far came to. |
| `RouteLaws.TableByDecider` | src/router.rs:586-923 | SNI by SNI, a table holds what the deciding spec came to, and a tombstone exactly when that was nothing. |
| `RouteLaws.ResolveName` | src/router.rs:374-419 | Resolution is exact name, then the one matching wildcard, then the default; a tombstone stops it. |
| `RouteLaws.ResolveRefinesSpecs` | src/router.rs:374-419 | For every list of specs, previous table and name, resolution returns the deciding spec's route; a rejected spec never falls through to a broader route nor shadows a narrower one. |
| `ReloadLaws.DecisionIsSafe` | src/router.rs:640-923 | A route built or carried forward for a spec obeys it, in the spec's own fields, and its health is tracked exactly with failover; a permanently invalid spec leaves none. |
| `ReloadLaws.ReloadIsSafe` | src/router.rs:586-923 | A reload of a sound table gives a sound table whose routes obey their deciding specs. |
| `ReloadLaws.ReloadsKeepTableOk` | src/router.rs:586-923 | Every table of every sequence of reloads is sound. |
| `ReloadLaws.ReloadSafety` | src/router.rs:531-556 | After any sequence of reloads, with any certificates failing, every route obeys its newest deciding spec: terminating, it asks for certificates of the spec's own CA as strictly as the spec says, of the listener's only if the spec has none, and for none if neither has; it admits the spec's sources; it fails over by the spec's policy; the spec is not permanently invalid; and slots track health exactly when the route has failover. |
| `BuildLaws.BuildsExactly` | src/router.rs:1007-1192 | A route is built if and only if its spec meets a condition on the spec alone, an address that parses included, and then with the endpoints the spec's upstreams name, in order, and with the spec's own client verifier, or the listener's if it has none. |
| `BuildLaws.AuthenticatesExactly` | src/router.rs:516-556 | A route has the client-certificate policy a spec asks for if and only if it terminates as the spec does, and checks clients against the CA, by digest, and as strictly as the spec, or failing that its listener, says. |
| `BuildLaws.ServableExactly` | src/router.rs:162-182 | A spec is permanently invalid if and only if a forwarded address or fingerprint needs HTTP that is not there or not terminated, or its source list does not parse. |
| `ServiceLaws.DecisionServes` | src/router.rs:748-808 | A deciding spec serves if and only if it is valid and builds or has a last-good route with its client-certificate policy; built, its own endpoints, otherwise the last-good route's. |
| `ServiceLaws.ServiceIsExact` | src/router.rs:586-923 | Over any sequence of reloads with any certificates failing, exactly when an SNI is served after the newest one, and with what, in the fields of its spec and of the live route. |
| `ReloadLaws.DownRouteStaysRefusing` | src/router.rs:816-866 | After reloading a down route every endpoint refuses unless that same endpoint was already accepting there. |
| `ReloadLaws.ReloadNeverBringsUp` | src/router.rs:737-746 | With one destination before and after, a down route stays down if and only if its spec does not build a socket group without paths. |
| `ReloadLaws.DownAfterReloadExactly` | src/router.rs:586-923 | The same if and only if over any sequence of reloads. |
| `ReloadLaws.ParsesExactly` | src/proxy.rs:1311-1350 | An upstream is taken if and only if it is TCP with host and port and no protocol, or a socket with a path and a known protocol; and as what. |
| `ReloadLaws.ConfiguredHasEndpoints` | src/proxy.rs:1311-1350 | No spec that configuration produces names a socket group without paths. |
| `ReloadLaws.NoReloadBringsUp` | src/failover.rs:513-523 | So over any sequence of reloads, with any certificates failing, a configured reload never brings a down route up. |
| `ReloadLaws.DownUntilProbed` | src/failover.rs:513-523 | A down route is still down after any number of further reloads between which nothing cleared a refusal. |
| `HealthLaws.RebuiltContinues` | src/router.rs:816-866 | A route built anew: every endpoint it shares with the route it replaces, destination by destination, keeps its health, and every other starts out refusing if and only if that route was down. |
| `HealthLaws.RetainedContinues` | src/router.rs:748-808 | A route that goes on for want of a certificate keeps its endpoints' health; switching failover on for it gives them all new objects that accept. |
| `HealthLaws.DownIsExact` | src/failover.rs:507-523 | A route is down if and only if it has failover and all endpoints of one of its destinations refuse, and there are any. |
| `Cooldown.FailoverPeer.constructor` | src/failover.rs:212-222 | A new peer is not in cooldown. |
| `Cooldown.FailoverPeer.RecordFailure` | src/failover.rs:273-288 | A failure updates the packed word as specified. |
| `Cooldown.FailoverPeer.ClearCooldown` | src/failover.rs:290-292 | A success clears it. |
| `Cooldown.BackoffExact` | src/failover.rs:279-281 | Neither the cap on the shift nor the one on the streak changes a configured backoff. |
| `Cooldown.WordIsStreakAndDeadline` | src/failover.rs:188-292 | After any run of failures and successes, with clock readings in any order, the word holds the capped number of failures since the last success and the capped longest deadline, never overlapping. |
| `Cooldown.CoolsUntilDeadline` | src/failover.rs:250-256 | A peer is cooling down if and only if the clock is before the longest deadline asked for. |
| `Forwarding.CandidatesInTurn` | src/failover.rs:525-567 | Each ready peer is tried once, in round-robin order; with none ready, a down route tries the one whose cooldown ends first, a draining one none. |
| `Forwarding.SpillGoesToTarget` | src/failover.rs:525-535 | A spill tries its target, if there is such a peer and it is not cooling down, and no other. |
| `Forwarding.Attempt` | src/failover.rs:701-724 | An attempt stays within its share, the peer sees a prefix of header and hello, and all of it before it can answer. |
| `Forwarding.ShareIsFair` | src/failover.rs:665-666 | An equal part of what is left is a fair share and leaves one for every later peer. |
| `Forwarding.RoundIsSafe` | src/failover.rs:657-697 | However the peers behave, a round stays within its budget, every expected attempt has a fair share, and only the last can be answered. |
| `Forwarding.RoundFollows` | src/failover.rs:657-697 | A round tries its candidates in order and touches no other peer's cooldown. |
| `Forwarding.RoundIsExact` | src/failover.rs:657-697 | A round: the i-th attempt is with the i-th candidate, begins when those before it ended, has an equal share of what is left, and goes as the peer reacts, answered if and only if the first byte comes within the share; the round stops only when one answered, all have been tried or the budget is spent. |
| `Forwarding.FailuresAreRecorded` | src/failover.rs:686-694 | Every peer that did not answer took exactly one failure into its cooldown. |
| `Forwarding.RoundMarks` | src/failover.rs:668-694 | Each attempt clears its peer's cooldown or adds one failure at the moment it ended, and no other peer's changes. |
| `ForwardingLaws.BudgetWithin` | src/failover.rs:629-634 | A round's budget is at most the handshake timeout, and half of it when there is a local fallback. |
| `ForwardingExact.BudgetExactly` | src/failover.rs:629-634 | The budget of each mode, in nanoseconds. |
| `ForwardingLaws.ForwardIsSafe` | src/failover.rs:601-698 | On every run at most one peer gets more than header and hello; if none answers the client's stream is untouched, else that peer holds the header and exactly what is gone from the stream. |
| `ForwardingLaws.SharesAreFair` | src/failover.rs:657-666 | Each attempt has at least an equal part of the time there was when the first began. |
| `ForwardingLaws.ForwardCounts` | src/failover.rs:613-627 | Replays, exhausted forwards and local fallbacks are each counted exactly. |
| `ForwardingExact.ForwardIsExact` | src/failover.rs:601-698 | A forward: nothing is tried without a hello that can be replayed or a candidate; else exactly such a round; how the connection ends, what is left of the client's stream and of the time, and when the cursor moves. |
| `ForwardingExact.GivesUpAtTheEnd` | src/failover.rs:657-698 | A forward with a replayable hello that nobody answers has tried every candidate in order, or its budget is spent. |
| `ForwardingExact.PromptPeerAnswers` | src/failover.rs:657-684 | If no candidate up to some one takes longer than an equal part of the time and that one sends its first byte, the client is handed over, to it or to one before it. |
| `ForwardingLaws.DecisionIsExact` | src/failover.rs:397-424 | When a connection is refused, forwarded or kept, and in which mode. |
| `ForwardingLaws.FirstRoundIsSafe` | src/proxy_conn.rs:231-280 | The drain or spill round leaves at least half the timeout and an untouched stream for local service. |
| `ForwardingExact.FirstRoundIsExact` | src/proxy_conn.rs:231-280 | Which connections are refused, stay here or go to a first round, and in which mode. |
| `ForwardingLaws.ConnectionIsSafe` | src/proxy_conn.rs:228-289 | Over both rounds and the local connect at most one attempt is answered, nothing is lost or sent twice, all of it fits in the handshake timeout, and a connection from a peer is never forwarded. |
| `ForwardingLaws.PeersKeepHalf` | src/proxy_conn.rs:519-541 | After a failed local connect the peers keep at least half of what was left, a quarter of the timeout. |
| `ForwardingExact.ServedIsExact` | src/proxy_conn.rs:508-558 | Which connections are connected early, within which limit, and what becomes of each. |
| `Failover.ClientStream.Read` | src/failover.rs:675-677 | Reading takes bytes off the front of the client's stream. |
| `Failover.RouteFailover.constructor` | src/failover.rs:475-485 | A new failover starts with its peers' cooldowns and zero counters. |
| `Failover.RouteFailover.GiveUp` | src/failover.rs:613-622 | A round nobody answered ends the connection or leaves it to local service with what is left of the timeout, and counts it. |
| `Failover.RouteFailover.Select` | src/failover.rs:525-567 | The candidates are chosen and the cursor advanced. |
| `Failover.RouteFailover.TryOne` | src/failover.rs:664-695 | One attempt with its share, and its effect on the peer's cooldown. |
| `Failover.RouteFailover.Attempts` | src/failover.rs:657-697 | The loop over the candidates computes the specified round and counts the replays. |
| `Failover.RouteFailover.Commit` | src/failover.rs:675-684 | After the first byte the hello is read and then the rest goes to that peer; a read that fails may have taken part of the hello, and ends the connection. |
| `Failover.RouteFailover.Conclude` | src/failover.rs:668-697 | The end of a round is the specified outcome. |
| `Failover.RouteFailover.ForwardToPeers` | src/failover.rs:601-698 | The whole function: result, attempts, time, client stream, cooldowns, cursor and counters as specified. |
| `Failover.RouteFailover.ConnectOrForward` | src/proxy_conn.rs:508-558 | The local connect with its limit, and the peers after a failure. |
| `Failover.RouteFailover.Handle` | src/proxy_conn.rs:228-399 | The failover part of a connection as specified. |
| `Spill.UnpackPack` | src/failover.rs:352-364 | What a packed admission unpacks to, whatever its fields. |
| `Spill.RoundTrip` | src/failover.rs:352-364 | An admission survives packing if and only if each field fits. |
| `SpillExact.WordLayout` | src/failover.rs:352-364 | The published word, bit by bit. |
| `Spill.Best` | src/failover.rs:916-926 | The first usable peer with the least load. |
| `SpillExact.BestIsChosen` | src/failover.rs:916-926 | The peer looked at is the first of the least loaded whose report is current, that is not cooling down and, where a limit is set, near enough. |
| `Spill.AssessMeans` | src/failover.rs:907-940 | There is a target if and only if both readings are current and half the margin apart; it rises if and only if they are a whole margin apart over the high-water mark. |
| `SpillExact.PassIsExact` | src/failover.rs:907-979 | A pass: by how much the fraction moves and which way, and what the word then holds. |
| `SpillExact.BlindPassDecays` | src/failover.rs:907-979 | Without a current reading of its own or any such peer, the fraction goes down and nothing spills. |
| `Spill.SpillState.Control` | src/failover.rs:944-979 | A pass updates fraction, clock and admission word as specified. |
| `Spill.SpillState.SpillTarget` | src/failover.rs:488-505 | Whether a connection spills; an expired word is cleared only if no newer one has replaced it. |
| `SpillExact.SpillsExactly` | src/failover.rs:488-505 | A connection spills to a peer if and only if the word names it and has not expired, the connection's hash falls in the share, and the peer is there and not cooling down. |
| `Spill.FractionIsBounded` | src/failover.rs:950-966 | Over any run the fraction stays in range and moves by exactly step times the elapsed time, up to a second, the way the trend says, stopping at either end. |
| `Spill.HonouredIsCurrent` | src/failover.rs:366-369 | An honoured admission rests on a local reading and a report of that peer that still hold at that moment. |
| `Spill.AdmissionIsPublished` | src/failover.rs:967-978 | The published word is nothing, or the rounded fraction, the target and how long both readings hold. |
| `Spill.SpillIsDownhill` | src/failover.rs:930-936 | A node spills only to one that reads itself strictly less loaded, when reports are off by less than half the margin. |
| `Spill.SpillNeverCycles` | src/failover.rs:907-940 | Then no chain of spills, in a group of any size, comes back to a node it left. |
| `Spill.HalfMarginIsSharp` | src/failover.rs:934-979 | At exactly half the margin two equally loaded nodes that spill some already both publish an admission naming the other, and a connection spills there and back. |
| `Spill.ShareComesAbout` | src/failover.rs:944-966 | Such a share comes about, under every policy. |
| `Sni.ScanHandshakeRecords` | src/sni.rs:68-115 | The loop computes the specified scan. |
| `Sni.Reassembles` | src/sni.rs:68-115 | However a ClientHello is split into records, empty ones included, and whatever follows, the scan returns exactly it and the end of the record that completes it. |
| `SniExact.ScanIsExact` | src/sni.rs:68-115 | The scan of any bytes at all: they are whole records and a rest; the answer is the message as soon as the records hold it and not before, a refusal for a wrong type of record or message, and otherwise a request for exactly the bytes of the next record or of its header. |
| `Sni.ScanStable` | src/sni.rs:47-115 | A complete hello and a refusal never change as more arrives; a request for more asks for more than is held, and for no more than the hello needs. |
| `Sni.PeekReassemble` | src/sni.rs:155-182 | However the bytes arrive, a hello that is found is the one the stream starts with and takes at most 16384 bytes; a hello within that is never taken for truncated or invalid, and is found within a bounded number of peeks once it has arrived; a truncated one needs more than that; and time runs out only while more is needed. |
| `Sni.Parser.ReadU8` | src/sni.rs:227-234 | One byte, or nothing and no progress. |
| `Sni.Parser.ReadU16` | src/sni.rs:236-243 | Two bytes, or nothing and no progress. |
| `Sni.Parser.ReadBytes` | src/sni.rs:259-266 | That many bytes, or nothing and no progress. |
| `Sni.Parser.ParseClientHello` | src/sni.rs:276-328 | The parser finds version, ciphers and extensions where the layout puts them. |
| `Sni.HeaderIgnored` | src/sni.rs:276-290 | The parse depends on a record header only through its type. |
| `Sni.SplitParsesAlike` | src/sni.rs:117-127 | A split hello parses as the same message sent in one record, so names and fingerprints agree. |
| `SniLaws.HelloRoundTrip` | src/sni.rs:276-328 | A hello written out field by field parses to its own version, ciphers and extensions. |
| `SniExact.HelloIsExact` | src/sni.rs:276-328 | Bytes parse as a hello if and only if they are its pieces one behind the other, to their own version, ciphers and extensions, the last as far as they go. |
| `SniLaws.PeekedHelloIsTheClients` | src/sni.rs:68-127 | So does any hello split into records in any way and followed by anything. |
| `Ja4.ReadExtensions` | src/sni.rs:521-590 | The loop over the extensions collects the specified facts. |
| `Ja4.ComputeJa4` | src/sni.rs:520-685 | The fingerprint is assembled from those facts as specified. |
| `Ja4Layout.FingerprintReads` | src/sni.rs:520-685 | The fingerprint of any hello, read off its bytes: `t`; 13, 12, 11, 10 or 00 by the highest version offered that is not GREASE, or else the legacy one; `d` if and only if there is a server name extension; the counts of ciphers and extensions in two digits, at most 99; first and last character of the first protocol; then the hash of the ciphers in ascending order, in hexadecimal, and the hash of the extensions likewise with the signature algorithms behind them, or zeros. |
| `Ja4Layout.ParseIsExact` | src/sni.rs:527-540 | Extensions are read as exactly those that, written out, the bytes begin with, up to what is no whole extension. |
| `Ja4Layout.FactsExactly` | src/sni.rs:521-590 | The extension types, versions, protocol and signature algorithms taken from the extensions, in terms of their bytes. |
| `Ja4Layout.GreaseExactly` | src/sni.rs:404-409 | The sixteen GREASE values. |
| `Ja4Laws.SortForgetsOrder` | src/sni.rs:647-666 | Two lists sort to the same list if and only if one is a permutation of the other. |
| `Ja4Laws.ExtensionsRoundTrip` | src/sni.rs:527-540 | Extensions written out are parsed back in order. |
| `Ja4Laws.CleanSame` | src/sni.rs:404-409 | Leaving out GREASE anywhere changes nothing the fingerprint takes from the extensions. |
| `Ja4Laws.FactsByType` | src/sni.rs:521-590 | With ALPN and signature algorithms at most once, each fact comes from the extensions of its own type, the versions from all of theirs. |
| `Ja4Laws.ShownDecides` | src/sni.rs:643-684 | Hellos that agree on what the fingerprint shows have the same fingerprint, whatever the hash. |
| `Ja4Laws.Ja4Invariant` | src/sni.rs:520-685 | Two hellos that are the same up to order and GREASE have the same fingerprint, as long as ALPN and signature algorithms, the two read in order, are not repeated. |
| `Ja4Laws.Ja4IgnoresGrease` | src/sni.rs:520-685 | GREASE alone never changes it, whatever is repeated. |
| `Ja4Laws.ReorderingIsSame` | src/sni.rs:646-666 | Reordering ciphers and extensions is such a change. |
| `Ja4Laws.GreaseIsSame` | src/sni.rs:542-586 | So is GREASE put in among ciphers or extensions, or inside an extension. |
| `Ja4Laws.GreaseInside` | src/sni.rs:548-586 | In particular among supported versions and signature algorithms. |
| `Ja4Separation.Ja4Exactly` | src/sni.rs:520-685 | For any two parsed hellos, unless the hash collides: the fingerprints are equal if and only if the version, the presence of a server name, the number of extensions up to 99, the protocol's two characters, the ciphers and extension types up to order, and the signature algorithms are the same. |
| `Ja4Separation.Ja4Separates` | src/sni.rs:643-684 | In terms of the hellos' contents: the same ciphers up to order and GREASE, and the same shown of the extensions without GREASE. |
| `Ingress.ParseFixed` | src/ingress.rs:127-156 | An accepted header's length covers its addresses and stays within the limit of its command. |
| `Ingress.ParseLoadQuery` | src/ingress.rs:169-190 | The loop over the TLVs computes the specified names or rejection. |
| `Ingress.EncodeLoadQuery` | src/ingress.rs:209-229 | A query is the fixed LOCAL header and one TLV per name. |
| `IngressExact.QueryIsWritten` | src/ingress.rs:209-229 | A query byte for byte. |
| `Ingress.EncodeLoadAnswer` | src/ingress.rs:233-244 | An answer is the magic line and one line per load. |
| `IngressExact.LoadIsSaid` | src/ingress.rs:233-244 | What is said of a load: itself up to 1000, without leading zeros, or a dash. |
| `Ingress.Socket.ReadExact` | src/ingress.rs:84-95 | Exactly that many bytes, or failure. |
| `Ingress.Socket.Discard` | src/ingress.rs:105-114 | Reading past the TLVs takes exactly their length. |
| `Ingress.Socket.ReadQuery` | src/ingress.rs:90-97 | The names of a query after its fixed part, or the rejection. |
| `Ingress.Socket.ReadAddresses` | src/ingress.rs:99-117 | The client's address after the fixed part, and past any TLVs. |
| `Ingress.Socket.ReadProxyV2` | src/ingress.rs:78-120 | A header is read off the stream as specified, and nothing after it. |
| `IngressExact.ProxyIsExact` | src/ingress.rs:78-156 | A stream is read as a connection from an address, with a header of that length, if and only if it begins with such a header; an IPv4 address written as IPv6 counts as IPv4. |
| `IngressExact.QueryIsRead` | src/ingress.rs:158-200 | A stream that begins with a query is read as its names in order, as a health check if it has none, and refused with more than 64. |
| `IngressExact.ReadIsQuery` | src/ingress.rs:158-200 | And nothing else is. |
| `IngressExact.RefusalIsExact` | src/ingress.rs:78-156 | When a header is refused as version 1, and how much of the stream a refused one takes. |
| `IngressLaws.QueryRoundTrip` | src/ingress.rs:167-229 | Every list of 1 to 64 names comes back in order, an empty or over-long one as not available, and exactly the query is consumed. |
| `IngressLaws.AnswerRoundTrip` | src/ingress.rs:231-278 | Every list of loads comes back, clamped to 1000. |
| `IngressLaws.AcceptedAnswer` | src/ingress.rs:250-278 | Bytes are accepted if and only if they are the magic line and exactly one valid line per expected name; each line is read as its own load, of at most 1000. |
| `IngressExact.AnswerIsExact` | src/ingress.rs:250-278 | Bytes are read as an answer with these loads if and only if they are the magic line and a line for each: a dash, or a numeral of at most four digits and at most 1000. |
| `IngressLaws.HeaderRoundTrip` | src/upstream.rs:198-292 | A peer reads the client's address and port back from the PROXY v2 header, and nothing but the header. |
| `IngressExact.HeaderIsWritten` | src/upstream.rs:198-292 | The header of a forwarded connection byte for byte: addresses, the loopback where the families differ, and ports. |
| `IngressLaws.HandedOverIntact` | src/failover.rs:641-684 | From end to end: the peer that answered learns the client's address, and the bytes after the header with what is still unread are the client's stream. |

## Left out

- `ProtectionLaws.RateBoundInRun`: takes one check at a time; what overlapping checks add is accounted for in `TokenRace`, per bucket.
- `TokenRace.ExclusiveRateBound`: gives a sufficient condition; overlapping refills that happen to be cut off by the ceiling add nothing either.
- `ProtectionLaws.EvictionNeverShows`: gives a sufficient condition for a whole entry; whether it is also necessary, with two buckets and a limit on connections, is not shown. For a bucket alone the condition is exact.
- `TokenRace.RaceConserves`: steps are sequentially consistent; the source's loads and compare-and-swaps are relaxed, so a call may also see the two words in another order.
- The caller's idle and half-close timeouts around the two HTTP pumps.
- `ForwardingLaws.ConnectionIsSafe`: does not count scheduling delay between the timed steps, nor the time a tunnel runs after a peer answered.
- `Failover.RouteFailover.Attempts`: other connections changing cooldowns during a round are covered by the laws about rounds, which allow any list of candidates, not by this method.
- `Sni.Parser.ParseClientHello`: stops at the raw cipher and extension bytes; the server name and JA3 are not computed.
- Which local upstream the balancer picks, client affinity, and CPU-weighted choice.
- Reading thread loads from `/proc` and smoothing them: a reading is a load and the time it holds until.
- Carrying spill state across reloads, and the periodic tasks that poll loads and probe endpoints.
- Building TLS configurations and parsing certificates: a build succeeds or fails.
- Suspended routes beyond the fact that they are never forwarded.
- Writing of source headers other than the PROXY v2 header without extra fields.
- Sockets, task scheduling, the time limit on reading a PROXY header, metrics, logging, and configuration from JavaScript beyond upstreams.
