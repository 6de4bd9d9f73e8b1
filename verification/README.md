# Verification of the naive proxy's traffic and admission machinery

The node runs a padded CONNECT proxy for users of a panel. This project models, per user, how
bytes are framed, counted, reported and confirmed, and how devices are admitted, limited and
released; and it proves what those parts promise to each other.

* `Padding.dfy`, `CopyLoop.dfy`, `PaddedTunnel.dfy`: the padding codec. `Padding` is the pure codec,
  `CopyLoop` the copy loop over the shared 64 KiB buffer, proved against it for every segmentation
  of the source, every choice of padding sizes and every failure of reader, writer, flush or rate
  limiter; `PaddedTunnel` puts two loops back to back over a transport that may be cut anywhere.
* `StreamStats.dfy`: the byte counters of a tunnel and the lock-free reading of what was not
  reported yet. Each load and each compare-and-swap of each thread is a step of its own.
* `Panel.dfy`, `UserList.dfy`: the panel's records, the aggregation of a report, and the difference
  of two user lists.
* `Limiter.dfy`, `AdmissionRuns.dfy`: the admission limiter as an object over its maps, and what
  holds of it over whole runs.
* `Server.dfy`, `ServerFacts.dfy`: the node server's users, counters and online counts as an object,
  and what each operation does to the bytes that are still to be reported.
* `Ledger.dfy`, `LedgerTheorems.dfy`: the whole byte ledger as a transition system: tunnels with
  their lock-free meters, events in flight, the server's books, one report at a time, and user
  updates at any moment.
* `UserUpdates.dfy`, `Controller.dfy`: updating by difference against rebuilding from the latest
  list, for one update and over all runs of controller, server and limiter together.
* `Owners.dfy`: under whose panel id bytes are pushed.
* `Lifecycle.dfy`: the calls one CONNECT request and its reporter make to the node server on every way
  out, and what they leave behind.
* `RateLimit.dfy`, `RateRuns.dfy`: the per-user rate limiters over token buckets, and what all tunnels
  of a user together get over whole runs.
* `Acl.dfy`: the access list and the two passes a dial makes over it.

The same state is modelled twice only where code updates it in place: a class whose methods do what
the code does, and functions on values that say what they mean. Every method's `ensures` ties the two;
the theorems about runs are about the functions.

## What the code does where its promises end

Some properties that look natural do not hold of the code. The code is kept as it is and the exact
condition is proved.

* An empty frame is undone by the decoder only if it carries no padding, because the decoder skips
  padding after a payload only (`Padding.EmptyFrameUndoneIffUnpadded`). The encoder never sends one.
* A cut stream is reported as an error only if the cut falls inside the padding of a frame: a cut
  inside a payload is overwritten by the empty read of the padding that follows it, and a cut inside
  a header is overwritten by the read of the payload. The copy then ends as if the stream were whole
  (`Padding.TruncationExact`, `PaddedTunnel.ThroughTheTunnel`).
* A user whose panel id changes while the limits stay is no difference between two lists, so the
  limiter and the delta path keep the old id (`UserUpdates.IncrementalIsRebuildIffIdsKept`,
  `UserUpdates.DeltaPathIsFullPath`).
* The cache of addresses is shared by all users, so a listed device that returns in every window can
  be rejected. It is, if and only if its cache entry was used up while it was away and its user is
  at the limit (`AdmissionRuns.ReturningDeviceRejectedIffShutOut`, with a run in
  `AdmissionRuns.SharedAddressCanBeRejected`).
* A uuid that a new list names twice is taken for a new user the second time. The result is the
  difference of the lists if and only if the new list names no uuid twice (`UserList.CompareUserList`).
* A running tunnel does not always follow its user's limit. Its limiter stays the user's, at the
  last limit fetched, if and only if every later fetch limits; one that lifts the limit frees it for
  good, even if the user gets a limit again (`RateRuns.HeldIffNeverLifted`, `RateRuns.FreedForGood`).
* A closed tunnel does not always leave the limiter without its device. The reporter is stopped only
  after the close event, and the device is registered again if and only if the reporter asks after
  that event and is accepted (`Lifecycle.ConnectLeavesBehind`).
* The fallback by panel id in a confirmation can hit a counter that was not reported; a confirmation
  is exact precisely when it hits none (`ServerFacts.SnapshotExactIffNoneShadowed`).
* A bare address in the access list that is written in IPv4-mapped form makes a rule that does not
  match that address (`Acl.BareAddressRule`).
* A speed limit so large that the conversion to bytes overflows can leave the user unlimited
  (`RateLimit.ConversionExactBelowOverflow`).
* The comment on `dualStream` says that it returns when the upload is done; the code waits for both
  directions, and so does the model.

## Model

| member | source | states |
|---|---|---|
| Padding.RoundTrip | runtime/forwardproxy/forwardproxy.go:901-937 | For all non-empty reads that fit the buffer and any paddings, removing the padding of the encoded stream gives the concatenated payload, across the switch from framed to raw, and never ends inside padding |
| Padding.EncodeAppend | runtime/forwardproxy/forwardproxy.go:906-920 | Encoding read by read, as the loop does, yields the encoding of the whole list of reads |
| Padding.FrameLayout | runtime/forwardproxy/forwardproxy.go:913-919 | A frame is a big-endian length of two bytes, the padding size, the payload and zeros |
| Padding.EncodedLength | runtime/forwardproxy/forwardproxy.go:906-937 | Header and padding are spent on the first reads only, one for each padding size |
| Padding.RawTail | runtime/forwardproxy/forwardproxy.go:934-937 | The reads after the framed ones follow as they are |
| Padding.DecodeMonotone | runtime/forwardproxy/forwardproxy.go:921-933 | Cutting any byte string, encoded or not, only cuts the decoder's output short |
| Padding.TruncationSafe | runtime/forwardproxy/forwardproxy.go:921-973 | Decoding the first k bytes of an encoded stream gives a prefix of the payload, for every k |
| Padding.TruncationExact | runtime/forwardproxy/forwardproxy.go:921-973 | A stream cut after k bytes delivers exactly the payload bytes that arrived; the decoder notices exactly the cuts strictly inside padding |
| Padding.EmptyFrameUndoneIffUnpadded | runtime/forwardproxy/forwardproxy.go:927-932 | An empty frame is undone, whatever follows it, if and only if its padding size is zero |
| CopyLoop.Source.Read | runtime/forwardproxy/forwardproxy.go:910 | A read takes a non-empty prefix of the remaining bytes into the range and nowhere else, or reports the end |
| CopyLoop.Source.ReadFull | runtime/forwardproxy/forwardproxy.go:923-931 | A full read takes exactly as many bytes as asked for and there are, with the error the library documents for each case |
| CopyLoop.FillFrame | runtime/forwardproxy/forwardproxy.go:906-920 | The in-place encoder leaves exactly the frame of what it read at the front of the buffer, never outside the buffer, with a length that fits the two header bytes |
| CopyLoop.TakeBody | runtime/forwardproxy/forwardproxy.go:927-932 | Payload and padding are taken off the source, only the payload stays in the buffer, and the last read decides the error |
| CopyLoop.TakePadded | runtime/forwardproxy/forwardproxy.go:921-933 | The in-place decoder reads one frame as the pure decoder does, even when a short header leaves stale bytes in the buffer |
| CopyLoop.TakeRaw | runtime/forwardproxy/forwardproxy.go:934-937 | After the framed reads, a read is handed on as it is |
| CopyLoop.Deliver | runtime/forwardproxy/forwardproxy.go:938-967 | What reaches the destination, what is billed and which error wins when limiter, write, flush or short write fail |
| CopyLoop.CopyOnce | runtime/forwardproxy/forwardproxy.go:902-974 | One turn reads as the mode and the slot ask for and hands on the wire image of the part |
| CopyLoop.SettledAppend | runtime/forwardproxy/forwardproxy.go:902-974 | One more fully delivered part keeps the accounts: wire bytes are the encoding, billed bytes the payload, and payload read plus payload left is the whole payload |
| CopyLoop.PartHandedOn | runtime/forwardproxy/forwardproxy.go:938-973 | One more part, wholly or partly taken, keeps the copy on its course or ends it as promised |
| CopyLoop.BilledAppend | runtime/forwardproxy/forwardproxy.go:942-951 | Whatever part of the last wire image was taken, billing covers whole parts and never header or padding |
| CopyLoop.Turn | runtime/forwardproxy/forwardproxy.go:902-974 | One turn of the real loop is one step of the accounts, and unused slots plus unread bytes fall |
| CopyLoop.FlushingIoCopy | runtime/forwardproxy/forwardproxy.go:895-976 | The loop ends; what it sent is a prefix of the encoding (or decoding) of what it read; without failure it is all of it and the bill is the payload; with a failure it is the error and the amount of the part that failed; exactly the billed bytes are added to the one meter |
| CopyLoop.FaultsEndTheCopy | runtime/forwardproxy/forwardproxy.go:938-967 | Every buffer before the last was let pass, taken whole, written and flushed; the last one too when reading came to its end; otherwise the error is that of the first fault, in the order limiter, write, flush, short write |
| CopyLoop.FailedCopySent | runtime/forwardproxy/forwardproxy.go:938-967 | Of the buffer that failed nothing is sent when the limiter did not let it pass, and else exactly what the destination accepts |
| PaddedTunnel.CopyBillsPayloadOnly | runtime/forwardproxy/forwardproxy.go:910-965 | In every copy, payload delivered <= bytes billed <= payload read <= payload of the source; all four are equal when reading comes to its end |
| PaddedTunnel.CutCopy | runtime/forwardproxy/forwardproxy.go:895-976 | The first k wire bytes of a padded copy, however it ended, stand for a prefix of what was read, of a length given exactly |
| PaddedTunnel.ReceiverGetsPrefix | runtime/forwardproxy/forwardproxy.go:895-976 | A receiver of any cut of a padded copy gets a prefix of what the sender read and bills no more than the sender, whatever failed at the sender, on the wire or at the receiver |
| PaddedTunnel.ThroughTheTunnel | runtime/forwardproxy/forwardproxy.go:895-976 | Two loops back to back, the sender ending in any way and the wire ending or breaking after k bytes: a receiver that reads to the end has every payload byte that arrived, and the error it reports is given exactly |
| PaddedTunnel.WholeTunnel | runtime/forwardproxy/forwardproxy.go:895-976 | Over a whole wire the receiver has all of the data and both sides bill the same |
| PaddedTunnel.DualStream | runtime/forwardproxy/forwardproxy.go:823-857 | Both directions end as their copies do, padding is removed towards the target and added towards the client, each meter grows by what its own direction billed, and the upload's error goes first |
| StreamStats.Counters.AddUpload | runtime/forwardproxy/forwardproxy.go:786-790 | Adds positive amounts to the upload total and leaves the other one |
| StreamStats.Counters.AddDownload | runtime/forwardproxy/forwardproxy.go:792-796 | Adds positive amounts to the download total and leaves the other one |
| StreamStats.Counters.Delta | runtime/forwardproxy/forwardproxy.go:798-816 | Undisturbed, takes exactly what was unreported of each direction and marks it reported |
| StreamStats.UndisturbedCall | runtime/forwardproxy/forwardproxy.go:805-816 | The stepwise call that nobody disturbs does the same as the method |
| StreamStats.StepKeepsInv | runtime/forwardproxy/forwardproxy.go:805-816 | Every single load, swap or add of any thread keeps the bookkeeping of the calls |
| StreamStats.NoByteTwice | runtime/forwardproxy/forwardproxy.go:805-816 | For any number of threads and any interleaving, reported never passes total, the returned values sum to reported, and each reported byte was handed out by exactly one call |
| StreamStats.StepAddsOrTakes | runtime/forwardproxy/forwardproxy.go:805-816 | The lock-free calls refine an atomic take: each step adds, or takes some unreported bytes, or does nothing |
| StreamStats.LastCallDrains | runtime/forwardproxy/forwardproxy.go:399-411 | A call begun after the last add leaves nothing unreported when it returns, whatever calls race with it |
| Panel.AggregateTraffic | internal/panel/client.go:376-386 | The pushed body has exactly the reported ids, each with the sum of what the report holds for it |
| UserList.CompareUserList | main.go:391-410 | For all lists; deleted, added and modified are exactly the users gone, new, and listed with other limits, each once, if and only if the new list names no uuid twice |
| UserList.Scan | main.go:396-405 | For all lists, the scan sorts out new and changed users, takes a uuid named again for a new one, and strikes exactly the new list's uuids off the old map |
| UserList.DeltaIffDistinct | main.go:391-410 | The three results are the difference of the lists if and only if the new list names no uuid twice |
| UserList.Values | main.go:406-408 | The users left over are listed once each, in whatever order the map yields |
| UserList.DeltasDisjoint | main.go:391-410 | The three deltas touch disjoint uuids, they lead from the old uuids to the new ones, and an untouched user kept its limits |
| Limiter.Limiter.constructor | internal/limiter/limiter.go:51-67 | A fresh limiter holds the limits of the list and nothing else |
| Limiter.Limiter.SetAliveList | internal/limiter/limiter.go:69-73 | Replaces the alive list only |
| Limiter.Limiter.Admit | internal/limiter/limiter.go:210-244 | Both paths follow one rule, and a rejection leaves all maps exactly as they were although the address was stored first |
| Limiter.Limiter.Authorize | internal/limiter/limiter.go:133-139 | Rejects exactly unknown users and new addresses at the limit; otherwise gives the effective speed limit |
| Limiter.EffectiveLimit | internal/limiter/limiter.go:191-208 | The smaller of two limits where zero stands for none |
| Limiter.Limiter.CheckLimit | internal/limiter/limiter.go:116-131 | The same decision on the trimmed address, with the user's bucket, made on first use |
| Limiter.Limiter.ReleaseIP | internal/limiter/limiter.go:148-173 | Takes the device away, no empty device map stays, and the user's own cache entry goes |
| Limiter.Limiter.UpdateBucket | internal/limiter/limiter.go:103-114 | Sets or drops the user's bucket |
| Limiter.Limiter.UpdateUsers | internal/limiter/limiter.go:75-101 | Deletes, then modifies, then adds, in that order |
| Limiter.Limiter.GetOnlineDevice | internal/limiter/limiter.go:175-189 | Reports each online device exactly once, empties the window and caches exactly its addresses |
| Limiter.Limiter.DrainUser | internal/limiter/limiter.go:180-184 | Moves every address of one user into report and cache |
| AdmissionRuns.AuthorizedFacts | internal/limiter/limiter.go:210-244 | Admission adds the device, if it is admitted, and touches no other |
| AdmissionRuns.ReleasedFacts | internal/limiter/limiter.go:148-173 | Release takes the device away and touches no other |
| AdmissionRuns.UpdatedFacts | internal/limiter/limiter.go:75-101 | An update changes which users are known exactly by its deltas, and puts only deleted users' devices offline |
| AdmissionRuns.RunKeepsWellFormed | internal/limiter/limiter.go:75-244 | Over any run, online users are listed, no device map is empty, and every bucket belongs to a listed user at the rate of its effective limit |
| AdmissionRuns.ReachableIsWellFormed | internal/limiter/limiter.go:51-131 | The same from a fresh limiter, and a checked user's bucket runs at exactly that user's limit |
| AdmissionRuns.UpdateSetsBuckets | internal/limiter/limiter.go:84-100 | After an update an added or modified user has a bucket if and only if a speed limit applies |
| AdmissionRuns.DevicesUnderOwnIds | internal/limiter/limiter.go:210-244 | Over all runs from a fresh limiter in which uuids keep their ids, every device is stored under its own user's id, and every cached address under that of a user who was online there |
| AdmissionRuns.ReportedUnderOwnIds | internal/limiter/limiter.go:175-189 | Every device is reported under the id of the user it belongs to |
| AdmissionRuns.MappedFormIsPlain | internal/limiter/limiter.go:148-149 | An address written with ::ffff: is admitted and released as the plain one, and no other address is |
| AdmissionRuns.ReleaseUndoesAdmission | internal/limiter/limiter.go:148-173 | Releasing a newly admitted device restores the limiter but for the user's own cache entry that the admission used up |
| AdmissionRuns.AdmissionIsStable | internal/limiter/limiter.go:133-173 | An admitted device is accepted again with no change, until it is released, its user deleted or the window rotated, whatever else happens |
| AdmissionRuns.OnlineIffAdmittedSince | internal/limiter/limiter.go:75-244 | In every run a device is online if and only if some request of its own was accepted and none of these ended that since |
| AdmissionRuns.CachedUntilSpent | internal/limiter/limiter.go:148-243 | Between rotations an address leaves the cache exactly when some request or release uses its entry up, and none is added |
| AdmissionRuns.ReturningDeviceRejectedIffShutOut | internal/limiter/limiter.go:175-244 | Over any number of windows and with any alive lists, limits and other users, a device that returns in every window is rejected if and only if its cache entry was used up while it was away and its user is at the limit |
| AdmissionRuns.RejectedInWindowIffSpent | internal/limiter/limiter.go:210-244 | In the window after a rotation the address stays cached exactly until an operation uses its entry up, and the device is rejected if and only if one did and the limit is reached |
| AdmissionRuns.ReturningDeviceIsNeverRejected | internal/limiter/limiter.go:175-189 | A device whose entry nobody uses up while it is away, in particular one with its own address, is never rejected while listed |
| AdmissionRuns.SharedAddressCanBeRejected | internal/limiter/limiter.go:234-240 | Sharing an address can shut a device out: a run of five operations from a fresh limiter |
| Server.SubtractReported | internal/caddyproc/server.go:1205-1213 | Takes off the reported amount, never below zero |
| Server.Server.constructor | internal/caddyproc/server.go:50-67 | A new server's books are those of its list, with no traffic |
| Server.Server.ReplaceUsers | internal/caddyproc/server.go:1477-1509 | The new list becomes the users, ids are recorded and never forgotten, counters with bytes are kept, offline users' counts go |
| Server.Server.ApplyUserDelta | internal/caddyproc/server.go:1511-1547 | The three deltas applied in order to users, ids, counters and counts |
| Server.Server.UpdateUsers | internal/caddyproc/server.go:178-185 | Chooses the full or the delta path and updates the limiter by the deltas in both |
| Server.Server.GetCounterWithUID | internal/caddyproc/server.go:1549-1567 | Gives the counter of the uuid itself, made when missing, under the given id when that is positive |
| Server.Server.UserIDByUUID | internal/caddyproc/server.go:1575-1582 | The listed positive id, else the recorded one |
| Server.Server.HandleEvent | internal/caddyproc/server.go:1360-1399 | An event's bytes land on its own uuid's counter; a close also releases the address and counts down |
| Server.Server.CloseDevice | internal/caddyproc/server.go:1386-1396 | Counting down removes the address at the last tunnel and the user at the last address |
| Server.Server.GetUserTrafficSlice | internal/caddyproc/server.go:187-197 | Lists a snapshot of exactly the counters above the threshold, each once |
| Server.Server.ConfirmUserTraffic | internal/caddyproc/server.go:199-219 | Subtracts the report from the counters by uuid or else by id, then drops idle counters of unlisted users |
| Server.IndexReportedTraffic | internal/caddyproc/server.go:231-251 | Sums a report by uuid, and by id only for entries without uuid |
| Server.Server.GetOnlineDevice | internal/caddyproc/server.go:253-274 | Reports exactly the addresses with open tunnels of listed users, each once |
| Server.Server.HandleAuthorize | internal/caddyproc/server.go:1643-1665 | The answer follows the limiter, with the reason that fits the books, and only the limiter changes |
| Server.Server.HandleRelease | internal/caddyproc/server.go:1680 | Releases the pair |
| ServerFacts.UpdateKeepsBytes | internal/caddyproc/server.go:1477-1547 | No update of the user list, on either path, loses, doubles or moves a pending byte; afterwards every listed user has a counter |
| ServerFacts.ConfirmKeepsCounters | internal/caddyproc/server.go:209-218 | A confirmation leaves every listed user a counter |
| ServerFacts.ReplaceDropsIdle | internal/caddyproc/server.go:1490-1496 | A replaced list keeps no counter of an unlisted user that holds no bytes |
| ServerFacts.DeleteDropsIdle | internal/caddyproc/server.go:1517-1526 | Deleting users keeps none of their counters that holds no bytes |
| ServerFacts.ConfirmDropsIdle | internal/caddyproc/server.go:199-219 | A confirmation keeps no counter of an unlisted user that holds no bytes any more; one of nothing changes nothing |
| ServerFacts.EventAddsBytes | internal/caddyproc/server.go:1376-1382 | An event adds exactly its bytes to exactly its uuid |
| ServerFacts.EventAddsAnyAmounts | internal/caddyproc/server.go:1152-1160 | An event of any amounts counts as soon as one of them is positive |
| ServerFacts.EventKeepsId | internal/caddyproc/server.go:1549-1582 | Bytes are booked under the event's id, or else the listed or recorded one, and an id that is not positive never replaces a counter's |
| ServerFacts.SnapshotFits | internal/caddyproc/server.go:187-197 | A snapshot never reports more than is pending |
| ServerFacts.SnapshotIsWhole | internal/caddyproc/server.go:1171-1184 | A snapshot reports all bytes of the counters above the threshold and none of the others; confirming it leaves the former nothing and the latter everything |
| ServerFacts.IndexFacts | internal/caddyproc/server.go:231-251 | Indexing is the per-uuid sum, and nothing is indexed by id when every entry has a uuid |
| ServerFacts.ConfirmIsExact | internal/caddyproc/server.go:199-219 | Confirming a fitting report takes exactly what it holds off each counter, and the fallback by id takes no part |
| ServerFacts.PushMatchesSubtraction | internal/panel/client.go:376-386 | What the panel is told for an id equals what confirming takes off that id's counters |
| ServerFacts.CounterExactIffNotShadowed | internal/caddyproc/server.go:209-214 | A counter is confirmed exactly if and only if no unnamed entry of its id shadows it |
| ServerFacts.SnapshotExactIffNoneShadowed | internal/caddyproc/server.go:199-251 | Confirming a snapshot is exact if and only if the fallback by id hits no unreported counter |
| Ledger.RunKeepsInv | runtime/forwardproxy/forwardproxy.go:779-886 | Every reachable state of the ledger balances and gives every listed user a counter, for every interleaving of copying, lock-free reads, ticks, closing, event handling, updates, snapshots and failed or accepted reports |
| Ledger.SendKeepsOut | runtime/forwardproxy/forwardproxy.go:399-411 | The events a tunnel sent carry exactly the values its calls returned and sent, and at most one of them is a close |
| Ledger.ActionKeepsInv | internal/caddyproc/server.go:187-219 | Each single step of any part keeps the balance |
| LedgerTheorems.EndToEnd | main.go:348-358 | For every user and direction: bytes counted = not yet taken + held by calls + in unhandled events + pending + confirmed, with no amount negative |
| LedgerTheorems.CloseDrains | runtime/forwardproxy/forwardproxy.go:385-420 | A closed tunnel has sent exactly one close event, nothing is left untaken, and its traffic events plus that close event carry every counted byte but what a racing reporter still holds |
| LedgerTheorems.ReportIsExact | main.go:348-358 | While a report is out each counter that it names with bytes is still there and holds at least the reported amount; accepting it subtracts exactly what was pushed |
| LedgerTheorems.AcceptedAtOnceLeavesNothing | main.go:348-358 | A snapshot without a threshold that is accepted at once leaves nobody anything pending |
| LedgerTheorems.OnlineCounts | internal/caddyproc/server.go:1371-1397 | Online counts are positive, no device map is empty, and no count exceeds the tunnels seen open from that address |
| LedgerTheorems.CountsAreExact | internal/caddyproc/server.go:1371-1397 | A count equals the tunnels seen open when no update removes the user while tunnels are open |
| LedgerTheorems.DevicesShownAreOpen | internal/caddyproc/server.go:253-274 | The device report shows an address of a listed user if and only if a tunnel is seen open from it |
| LedgerTheorems.UpdateDropsOnline | internal/caddyproc/server.go:1497-1525 | An update drops the online counts of exactly the users it removes and keeps the others |
| LedgerTheorems.QuietMeansNobodyOnline | internal/caddyproc/server.go:1371-1397 | In every run, once all tunnels have closed and all events are handled, nobody is online |
| UserUpdates.IncrementalIsRebuildIffIdsKept | main.go:331-334 | An update by difference gives the limits of a fresh limiter if and only if no kept user changed its panel id |
| UserUpdates.DeltaPathIsFullPath | internal/caddyproc/server.go:178-185 | Both paths give the same pending bytes always, and the same users and ids if and only if no user kept its limits but changed its id |
| UserUpdates.LimitAfterUpdate | internal/limiter/limiter.go:75-101 | The limit of one user after an update by difference |
| Controller.RunKeepsInv | main.go:307-339 | Over all runs of pulls, events, requests and confirmations, server and limiter know exactly the users of the last list |
| Controller.IncrementalRefinesRebuild | main.go:331-334 | After any sequence of pulled lists the limits are those of a fresh limiter built from the last one, and the server's users are that list |
| Controller.ReasonsAreTruthful | internal/caddyproc/server.go:1643-1665 | In every run a request is allowed at the speed limit listed for its user; "unauthorized" means never listed, "traffic_exhausted" listed before but not now, "device_limit" listed with a new address and a device limit that the panel's last count has reached; the id given is the user's own |
| Owners.RunKeepsOwned | internal/caddyproc/server.go:1145-1213 | Over all runs every counter is that of a user listed at some time, under the user's own panel id |
| Owners.ToldIsConfirmed | internal/panel/client.go:376-386 | In every run, what the panel was told for an id is exactly what the users with that id had confirmed, however lists changed in between |
| Owners.OneUuidPerId | internal/panel/client.go:376-386 | With one uuid to an id, that is what the uuid itself reported |
| Lifecycle.ServeConnect | runtime/forwardproxy/forwardproxy.go:285-424 | With its deferred calls run last in first out, a request that is not refused makes exactly one open and one close when it reaches its target and else exactly one release; a refused one makes none of them, and one without a user neither asks nor releases; the close comes before the reporter is stopped, and the reply is that of the first step that went wrong |
| Lifecycle.CallCounts | runtime/forwardproxy/forwardproxy.go:330-411 | The number of opens, closes and releases among a request's calls, on every way out |
| Lifecycle.ReportActiveTunnel | runtime/forwardproxy/forwardproxy.go:859-886 | The reporter sends what each tick drained if there is any, asks for the pair again, and ends at the first rejection |
| Lifecycle.BeatsCarryDrained | runtime/forwardproxy/forwardproxy.go:866-879 | The reporter's events carry exactly what it drained up to its first rejection, in each direction, and nothing for any other user |
| Lifecycle.BeatsAskEachRound | runtime/forwardproxy/forwardproxy.go:880-883 | The reporter asks at every tick, with or without traffic, until it is rejected |
| Lifecycle.BeatsAreOwn | runtime/forwardproxy/forwardproxy.go:866-883 | Its events name its own user and id, and it closes the target if and only if it is rejected |
| Lifecycle.SessionCarries | runtime/forwardproxy/forwardproxy.go:385-411 | The events of a session carry what its reporter and its close drained, all of it as its user's |
| Lifecycle.SessionNames | runtime/forwardproxy/forwardproxy.go:388-411 | They name its user, its address and the id of the answer |
| Lifecycle.SessionInserts | runtime/forwardproxy/forwardproxy.go:385-411 | A session is the request's own calls with the reporter's before and after the close event |
| Lifecycle.BookedBytes | internal/caddyproc/server.go:1376-1382 | The events of a session add exactly their bytes, each to its own user |
| Lifecycle.CloseUndoesOpen | internal/caddyproc/server.go:1371-1397 | Handling a close after its open restores the online counts exactly |
| Lifecycle.ReporterEffects | runtime/forwardproxy/forwardproxy.go:869-884 | However often the reporter asks, the limiter is as if it had asked once |
| Lifecycle.EffectsOfSession | runtime/forwardproxy/forwardproxy.go:330-411 | The effect of a request and its reporter on books and limiter, on every way out and however the reporter's calls fall around the close event |
| Lifecycle.ConnectLeavesBehind | runtime/forwardproxy/forwardproxy.go:330-411 | After a CONNECT and its reporter the online counts are as before, the bytes of all events are booked and the limiter holds its devices less this one, except that the device is registered again if and only if the reporter asks after the close event and is accepted; a rejection changes nothing at all |
| RateLimit.Bucket.WaitN | runtime/forwardproxy/v2naive_ratelimit.go:69 | The assumed token bucket: refuses more than a burst, else grants at a time given exactly |
| RateLimit.EarliestGrantIsCovered | runtime/forwardproxy/v2naive_ratelimit.go:69 | At that time the bucket holds the tokens |
| RateLimit.NoEarlierGrant | runtime/forwardproxy/v2naive_ratelimit.go:69 | At no earlier time does it hold them |
| RateLimit.DynamicRateLimiter.WaitN | runtime/forwardproxy/v2naive_ratelimit.go:51-75 | Splits n into requests of 1 to burst that add up to n, ends, and is never refused |
| RateLimit.Registry.GetUserRateLimiter | runtime/forwardproxy/v2naive_ratelimit.go:18-49 | The whole registry, with every limiter and bucket ever made, after the call: the same limiter and bucket while the limit stays, an empty bucket for a new rate, a freed limiter for a lifted one, and no other user touched |
| RateLimit.Registry.TunnelWait | runtime/forwardproxy/v2naive_ratelimit.go:51-60 | A wait through any limiter ever handed out, or none, puts exactly its bytes into the one bucket it holds, or does not wait |
| RateLimit.GetKeepsWellFormed | runtime/forwardproxy/v2naive_ratelimit.go:18-49 | Registered limiters stay different and filled, and no two limiters share a bucket |
| RateLimit.ConversionExactBelowOverflow | runtime/forwardproxy/v2naive_ratelimit.go:33-37 | The conversion to bytes per second is exact if and only if the limit is below the overflow bound |
| RateLimit.RateBound | runtime/forwardproxy/v2naive_ratelimit.go:51-75 | Between any two grants at most rate times the time and one burst get through |
| RateRuns.RunKeepsWellFormed | runtime/forwardproxy/v2naive_ratelimit.go:11-75 | Over all runs of fetches and waits, buckets stay distinct and keep to their rate |
| RateRuns.FetchLimits | runtime/forwardproxy/v2naive_ratelimit.go:18-37 | A tunnel gets a limiter if and only if it has a user whose limit is positive and converts to a rate |
| RateRuns.WithinIsWindow | runtime/forwardproxy/v2naive_ratelimit.go:69 | The grants of a span of time lie next to each other in the log |
| RateRuns.ConstantLimitSharesOneLog | runtime/forwardproxy/v2naive_ratelimit.go:18-75 | From a fetch on, while the user's limit stays, every fetch gets the same limiter and bucket, and exactly the bytes waited for through it enter that bucket's log, whatever other users do |
| RateRuns.UserRateBound | runtime/forwardproxy/v2naive_ratelimit.go:18-75 | Then all tunnels that hold the user's limiter together get at most rate times the span plus one burst, in every span of time |
| RateRuns.HeldIffNeverLifted | runtime/forwardproxy/v2naive_ratelimit.go:18-49 | A tunnel's limiter stays its user's limiter if and only if every later fetch of the user limits, and then it runs at the limit of the last fetch; it is free if and only if the fetch that ended this lifted the limit |
| RateRuns.LiftedLimiterStaysFree | runtime/forwardproxy/v2naive_ratelimit.go:22-31 | A limiter whose limit was lifted never has a bucket again, even if its user gets a limit again, and waits through it are no waits |
| RateRuns.FreedForGood | runtime/forwardproxy/v2naive_ratelimit.go:18-49 | Three fetches on the actual registry after which the first limiter is free and a second one limits |
| Acl.SuffixIsByLabels | runtime/forwardproxy/acl.go:48-59 | Suffix matching on characters is suffix matching on whole labels, for all names |
| Acl.ValidByLabels | runtime/forwardproxy/acl.go:102-122 | A domain passes if and only if every label has 1 to 63 allowed characters |
| Acl.DomainRuleMeaning | runtime/forwardproxy/acl.go:90-100 | A domain subject matches its own labels or, with a wildcard, any name that ends in them, and nothing else |
| Acl.LeadingDotIgnored | runtime/forwardproxy/acl.go:48-49 | A leading dot of the host makes no difference to a rule |
| Acl.AllMatchesEverything | runtime/forwardproxy/acl.go:73-75 | The subject "all" matches everything |
| Acl.NetworkRuleMeaning | runtime/forwardproxy/acl.go:76-89 | A network subject matches exactly the interval of addresses from its masked base on |
| Acl.MappedAddressIsPlain | runtime/forwardproxy/acl.go:32-40 | An IPv4-mapped address counts as the plain one in every rule, and as private when that one is |
| Acl.BareAddressRule | runtime/forwardproxy/acl.go:76-89 | A bare address matches that address alone; a mapped one does not match itself |
| Acl.NetIsInterval | runtime/forwardproxy/acl.go:32-40 | Every network, aligned or not and mapped or not, matches exactly one interval of addresses |
| Acl.MappedBoundary | runtime/forwardproxy/acl.go:32-40 | A network is one of mapped addresses only with at least 96 prefix bits, and then starts on the same boundary of 32-bit addresses |
| Acl.Provision | runtime/forwardproxy/forwardproxy.go:151-175 | The list is the configured rules in order, then the private networks, then allow all; it fails if and only if some rule cannot be read |
| Acl.ProvisionedDecides | runtime/forwardproxy/forwardproxy.go:151-175 | Some rule always decides; an address is permitted if and only if the first configured match allows it or, without one, it is not private |
| Acl.HostIsAllowed | runtime/forwardproxy/forwardproxy.go:685-697 | Allowed if and only if the first matching rule allows |
| Acl.PortIsAllowed | runtime/forwardproxy/forwardproxy.go:699-718 | Allowed if and only if a number from 1 to 65535 that is listed, or any when none is listed |
| Acl.DialContextCheckACL | runtime/forwardproxy/forwardproxy.go:617-683 | Without an upstream an address is dialed if and only if port and host pass, the whole list permits it, and no permitted address before it answered |

## Left out

- HTTP, TLS, sockets, hijacking, DNS lookup and the dialing itself: their outcomes are parameters.
- Credential checks, probe resistance, PAC and hidden pages before a request is authorised.
- Requests other than CONNECT, which authorise but never release.
- Bytes that `serveHijack` forwards before the copy: they are not counted by the code either.
- A reader that returns no byte and no error: the model's readers never do. In the code such a read uses up a padding slot.
- The legacy engine in internal/proxy/server.go: its window rotation and limit check are the limiter's, which are modelled; its counters are not. The ledger does not hold there as it stands: a tunnel of that engine fetches its counter once and keeps it, so bytes counted after an update or a confirmation dropped the counter as idle are never reported. They are kept only when no counter is dropped while a tunnel holds it.
- Interleavings finer than one handler or method of server and limiters (a wait for several chunks is one step), the order of their mutexes, and deadlock. A counter dropped between lookup and addition is not modelled.
- PaddedTunnel.DualStream: runs the two copies one after the other instead of in two goroutines, because they share nothing but the meters; the ledger has every interleaving of both with the periodic reporter. Half-closing the writer after a copy is not modelled.
- Lifecycle.ConnectLeavesBehind: follows one request and its reporter, with no other request in between; for any interleaving AdmissionRuns.OnlineIffAdmittedSince says which devices are online and the ledger when nobody is. An authorisation whose answer is lost on the way is a denied one here, and no release follows it, as in the code.
- Events travel as log lines; the ledger handles them in the order they were sent and loses none.
- Overflow of byte totals and of the limiter's rates: the totals are unbounded integers. Buffer and header arithmetic, and the speed limit conversion of the tunnels, have their real bounds.
- Restart and reload: a new server starts with empty counters, so the ledger is that of one server's life.
- A push that the panel took but whose answer was lost: for the node it is a failed report, and the same bytes are pushed again.
- Empty uuids in lists, lists that name a uuid twice once they are past the comparison, and ids that change or are not positive: the ledger assumes that listed users and tunnels are named, the controller's runs that uuids are distinct with one positive id each, and what is said of panel ids in `Owners` that bytes come from users who were listed, under no id or their own. What happens without these assumptions is proved where it is an exact condition.
- A check of devices against the limiter's own count: the code only looks at the panel's alive count.
- An address stays registered only until the first close from it, even with other tunnels open: no claim is made that an open tunnel keeps its address registered.
- The device report built from the online devices and the minimum traffic (main.go:361-388).
- The internals of juju/ratelimit and golang.org/x/time/rate: `RateLimit.Bucket` is a token bucket specification, and the limiter's buckets are known by their rate only.
- The address parsers: what they make of a rule's text is a parameter of `Acl.NewACLRule`.
- Certificates, configuration, the panel's HTTP client, the snapshot cache, cover pages, Caddyfile rendering and log formatting.
- CopyLoop.Source.Read: how a transport cuts its bytes into chunks is free, but a chunk longer than the range asked for is split at the range's end.
- PaddedTunnel.ThroughTheTunnel: a reader that has reported its end reports the same again. One that reports an error once and then the end of file is not modelled: when the error falls inside a header or a payload the later read hides it, and the copy ends as if the stream had ended.
