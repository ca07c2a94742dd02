# ipset controller bookkeeping, modelled in Dafny

The ipset client is a message-driven controller that keeps a time-limited IP
blocklist in a pool of ipset `iphash` sets ("shards"). Control messages arrive
from a queue with an `action_type` (`add`, `update`, `del`, `clear`, `stop`), one
or more `ip` values (each possibly a comma-joined list) and a `timeout`.

This project models the controller's in-process bookkeeping in
`ipsetclient/ipset.go`:

- the **registry** `iplist`, modelled as a map from IP to the timeout its expiry
  was armed with;
- the **shard list** `HashList` and the **write cursor** `index`;
- the ipset commands the controller issues, as a transcript `log` of
  add-member (`-A`, with the tool's answer), remove-member (`-D`) and flush (`-F`)
  commands.

The answer of the external `ipset -A` command is an oracle: a total function of
the transcript so far, the shard and the IP, returning `AddOk`, `SetFull` (the
tool's error text says "set is full") or `AddFailed` (any other failure). Any
deterministic external store fits this shape.

Files and modules:

- `text.dfy`, module `Text`: the library behaviour the core uses. `Split` is
  `strings.Split` with a one-character separator, `Itoa` is `strconv.Itoa` on a
  non-negative int, and `Atoi` is `strconv.Atoi` on a 64-bit platform with its
  error ignored. An optional sign and at least one digit give the value, clamped
  to the 64-bit range. When the leading digits already exceed 2^64 - 1, the scan
  stops there and the result is the extreme of the sign's direction, even if a
  non-digit follows. Anything else gives 0.
- `registry.dfy`, module `Registry`: the state as a value
  `State(iplist, index, log)` and the effect of `setup_iphash`
  (`ShardNames`), `update_ip` (`Step`, `Update`), `del_ip` (`Delete`) and
  `clear_ip` (`Clear`) as functions, with the lemmas that state what they mean.
- `dispatch.dfy`, module `Dispatch`: message decoding (`Decode`, and the
  method `DecodeRequest` with the source's loop), action selection
  (`Dispatch`) and the effect of one message (`Handle`).
- `ipset.dfy`, module `IPSetClient`: class `IPSet` with the fields `hashList`,
  `index`, `iplist` and `log`, whose methods update them in place with the
  source's loops and early returns. Each method is proved to leave the state
  that the matching function of `Registry` or `Dispatch` computes.

Behaviour of the code that the model makes explicit:

- `update_ip` ends the whole batch with `return` at the first IP that is shorter
  than 7 characters or already registered; the rest of the batch is not
  processed, and an existing entry's timeout is not replaced.
- On "set is full" the cursor steps with `index < maxsize ? index + 1 : 0`, so it
  can reach `maxsize`, one past the last shard. The next accepted IP is then
  registered and `HashList[index]` is read out of range, which panics in Go. The
  model records this as status `IndexOutOfRange` and stops there.
- The retry after "set is full" calls `update_ip([ip])` after the IP has been
  registered, so it returns at once. The IP stays registered without being in
  any shard. `UpdateIp` keeps the recursive call, and its contract shows the
  call changes nothing.
- `clear_ip` deletes the registry entries without calling `Stop` on their
  timers, and so does the rollback of a failed add. The model has no timer
  state, so it shows only that a re-added IP is removed by a later expiry for
  it, not that such an expiry is still pending.

## Model

| member | source | states |
|---|---|---|
| `Text.Split` | ipsetclient/ipset.go:88 | splitting always yields at least one fragment, as `strings.Split` does even for the empty string |
| `Text.SplitFragmentsFree` | ipsetclient/ipset.go:88 | no fragment contains the separator |
| `Text.SplitLength` | ipsetclient/ipset.go:88 | there is one fragment more than there are separators |
| `Text.JoinSplit` | ipsetclient/ipset.go:88 | joining the fragments with the separator restores the split string |
| `Text.SplitJoin` | ipsetclient/ipset.go:88 | splitting a join of separator-free fragments returns those fragments |
| `Text.JoinAppend` | ipsetclient/ipset.go:89 | joining a concatenation is joining the parts with one separator between them |
| `Text.Atoi` | ipsetclient/ipset.go:94 | the converted timeout always lies in the 64-bit int range |
| `Text.Itoa` | ipsetclient/ipset.go:41 | the decimal form of an index is a non-empty run of digits that starts with '0' only for 0 |
| `Text.DigitPrefix` | ipsetclient/ipset.go:94 | the digits `Atoi` scans are a run of digits at the front of the text, followed by a non-digit or the end |
| `Text.DigitPrefixAll` | ipsetclient/ipset.go:94 | on an all-digit text the scan reads the whole text |
| `Text.DigitPrefixAppend` | ipsetclient/ipset.go:94 | the scan reads a leading run of digits and continues into what follows |
| `Text.DigitsValueGrows` | ipsetclient/ipset.go:94 | appending digits never lowers the value, so once the scan exceeds 2^64 - 1 it stays above it |
| `Text.AtoiOverflowFirst` | ipsetclient/ipset.go:94 | digits worth more than 2^64 - 1, unsigned or with '+', convert to MaxInt and with '-' to MinInt, whatever text follows them |
| `Text.AtoiItoa` | ipsetclient/ipset.go:94 | a formatted non-negative int parses back to itself |
| `Text.AtoiRejects` | ipsetclient/ipset.go:94 | a value with no digits converts to 0, the value `Atoi` returns with its error |
| `Text.ItoaDigits` | ipsetclient/ipset.go:41 | the index suffix of a shard name is a non-empty run of digits whose value is the index |
| `Text.ItoaInjective` | ipsetclient/ipset.go:41 | different indexes give different suffixes |
| `Registry.ShardNames` | ipsetclient/ipset.go:38-42 | the shard list has max(maxsize, 0) names, each starting with `HashName` |
| `Registry.ShardNamesShape` | ipsetclient/ipset.go:38-42 | the shard list has one name per index below maxsize (none if maxsize is not positive), namely `HashName` followed by the index |
| `Registry.ShardNamesDistinct` | ipsetclient/ipset.go:40-42 | no two shards share a name |
| `Registry.ShardNamesExtend` | ipsetclient/ipset.go:40-42 | each loop step of `setup_iphash` appends the next name |
| `Registry.NextIndex` | ipsetclient/ipset.go:167-171 | the cursor step either wraps to 0 or advances by one to at most maxsize |
| `Registry.NextIndexBounds` | ipsetclient/ipset.go:166-172 | the cursor step keeps the cursor at 0 or in `[0, maxsize]`; from the last shard it lands on `maxsize`; it wraps to 0 exactly when the cursor is at or past maxsize |
| `Registry.Step` | ipsetclient/ipset.go:151-178 | one accepted IP: it ends up registered exactly when the add-member answer is not a plain failure, no other IP's registration changes, and exactly one command is appended to the transcript |
| `Registry.Update` | ipsetclient/ipset.go:140-181 | a batch never unregisters an IP that was registered before it, and it reports `IndexOutOfRange` only with the cursor outside the shard list |
| `Registry.StepOutcome` | ipsetclient/ipset.go:151-178 | for an accepted IP: on success it is registered with the timeout; on "set is full" it stays registered and the cursor steps; on another failure the registry is as before; one add-member command goes to the shard at the cursor |
| `Registry.RetryIsNoop` | ipsetclient/ipset.go:146-150 | updating a single registered IP changes nothing, so the retry at line 173 is a no-op |
| `Registry.UpdateStopsAt` | ipsetclient/ipset.go:141-150 | once an IP is too short or already registered, nothing after it in the batch is processed |
| `Registry.UpdateRegistry` | ipsetclient/ipset.go:141-160 | entries registered before a batch keep their timeouts; every new entry is an IP of the batch of length at least 7, registered with the batch's timeout |
| `Registry.UpdateCursorBound` | ipsetclient/ipset.go:161-173 | during a batch the cursor stays at 0 or in `[0, maxsize]` |
| `Registry.UpdateLog` | ipsetclient/ipset.go:156-160 | a batch only appends add-member commands, each naming a shard of the list and an IP of the batch |
| `Registry.FullLastShardOverruns` | ipsetclient/ipset.go:157-173 | "set is full" on the last shard moves the cursor to maxsize, and the next accepted IP is registered and then indexes the shard list out of range |
| `Registry.Delete` | ipsetclient/ipset.go:116-129 | `del_ip` leaves the cursor alone, registers no new IP, and only appends to the transcript |
| `Registry.DeleteRegistry` | ipsetclient/ipset.go:116-129 | after `del_ip` no IP of the batch is registered, every other entry is unchanged, and the cursor has not moved |
| `Registry.DeleteUnregistered` | ipsetclient/ipset.go:122-127 | deleting IPs that are not registered leaves the registry unchanged |
| `Registry.DeleteBroadcast` | ipsetclient/ipset.go:117-121 | `del_ip` appends one remove-member command for each IP of the batch and each shard of the list (`|ips| * |HashList|` in all) and keeps the earlier transcript; a removal of an IP from a shard is issued if and only if the IP is in the batch and the shard is in the list |
| `Registry.Clear` | ipsetclient/ipset.go:130-139 | `clear_ip` leaves an empty registry and the cursor unchanged, and appends exactly one command per shard |
| `Registry.ClearAll` | ipsetclient/ipset.go:130-139 | `clear_ip` empties the registry and appends one flush per shard, in list order; a shard is flushed if and only if it is in the list |
| `Registry.ExpiryIsSingleDelete` | ipsetclient/ipset.go:189-190 | a fired expiry removes the IP from the registry and issues a removal against every shard; for an IP that is no longer registered the registry is unchanged |
| `Registry.ReAddedThenExpired` | ipsetclient/ipset.go:141-160 | an IP that is not registered (as after `clear_ip`), added with a successful add-member command, is registered with the new timeout, and a fired expiry for it (`del_ip` of that IP) then removes it |
| `Dispatch.Decode` | ipsetclient/ipset.go:80-95 | a missing `action_type` gives the empty action, a missing `ip` gives no IPs, a missing `timeout` gives 0, and the timeout always lies in the 64-bit int range |
| `Dispatch.DecodeRequest` | ipsetclient/ipset.go:80-95 | the decoding loop computes `Decode`: the first `action_type` value or "", all `ip` values split on commas, the converted first `timeout` value or 0 |
| `Dispatch.FlattenAppend` | ipsetclient/ipset.go:87-90 | the flattened IPs of concatenated values are the concatenation of their flattened IPs, in order |
| `Dispatch.FlattenCommaFree` | ipsetclient/ipset.go:87-90 | no flattened IP contains a comma |
| `Dispatch.FlattenRejoin` | ipsetclient/ipset.go:84-91 | every value yields at least one IP, and the flattened IPs joined by commas equal the values joined by commas |
| `Dispatch.DecodedIps` | ipsetclient/ipset.go:84-91 | a decoded request's IPs are comma-free, rejoin to the `ip` values, and are empty exactly when there is no `ip` value |
| `Dispatch.DecodedTimeout` | ipsetclient/ipset.go:92-95 | the decimal form of a non-negative int decodes to that int; a missing timeout decodes to 0 |
| `Dispatch.AddIsUpdate` | ipsetclient/ipset.go:96-107 | a message with action `add` has exactly the effect of the same message with action `update` |
| `Dispatch.HandleLeavesState` | ipsetclient/ipset.go:75-79 | a malformed message, a `stop`, or an unknown or missing action leaves registry, cursor and transcript unchanged |
| `Dispatch.Dispatch` | ipsetclient/ipset.go:96-112 | `add` and `update` select `update_ip` with the request's IPs and timeout, `del` selects `del_ip` with its IPs, `clear` selects `clear_ip`, `stop` selects `stop_expire`, and each of these holds in both directions; every other action is ignored |
| `Dispatch.Handle` | ipsetclient/ipset.go:74-114 | a malformed message changes nothing; only an `add` or `update` message can move the cursor or end with `IndexOutOfRange` |
| `Dispatch.HandleSelects` | ipsetclient/ipset.go:96-112 | `add` and `update` run `update_ip`, `del` runs `del_ip`, `clear` runs `clear_ip`, each with the decoded arguments |
| `IPSetClient.IPSet.SetupIphash` | ipsetclient/ipset.go:38-61 | the shard list becomes exactly `ShardNames(HashName, maxsize)`, whatever it held before, and the cursor is 0 |
| `IPSetClient.IPSet.UpdateIp` | ipsetclient/ipset.go:140-181 | the new registry, cursor and transcript, and the out-of-range status, are those `Update` computes from the old state, keeping the cursor invariant |
| `IPSetClient.IPSet.DelIp` | ipsetclient/ipset.go:116-129 | the new state is `Delete` of the old state |
| `IPSetClient.IPSet.ClearIp` | ipsetclient/ipset.go:130-139 | the new state is `Clear` of the old state: empty registry, one flush per shard |
| `IPSetClient.IPSet.Expire` | ipsetclient/ipset.go:189-190 | a fired expiry for an IP has the effect of `del_ip` of that IP |
| `IPSetClient.IPSet.HandleMessage` | ipsetclient/ipset.go:74-114 | the handler returns nil on every path, and the new state is `Handle` of the old state and the message |

## Left out

- The ipset commands themselves (`exec.Command` of sudo/ipset): privileged external I/O. Add-member is an oracle; remove-member and flush are recorded in the transcript, and their results are ignored, as in the code.
- `setup_hashset` and `add_hashset`, and the `-L`/`-N` existence checks and creations inside `setup_iphash`: command plumbing with no in-process state beyond the shard list.
- `url.ParseQuery`: a foreign library call. Handling starts from its result, either malformed or the map of field values.
- The `regexp` match on the tool's error text: folded into the oracle's `SetFull` answer.
- Goroutine dispatch, `iplock` and the cursor mutex: concurrency. Each operation is modelled as atomic and sequential, so interleavings of concurrent operations are not covered.
- `time.AfterFunc` timers, `expireChan`, `sleepChan`, `stop_expire` and the sleep in `expire`: wall-clock timing and channels. The registry stores each IP's timeout in place of its timer. A fired expiry is modelled only as `del_ip` of the IP, and a `stop` message leaves the state unchanged.
- `Timer.Stop` in `del_ip`: timers are not modelled; the entry's removal is.
- `Registry.ReAddedThenExpired`: there is no timer state, so the model does not show that a timer armed before `clear_ip` survives it (`clear_ip` deletes entries without `Stop`, unlike `del_ip`), nor that the rollback of a failed add leaves its timer armed; it proves only what a later expiry for the re-added IP does.
- Logging.
- `IPSetClient.IPSet.UpdateIp`: the length test compares the number of characters, while Go's `len` counts bytes; the two agree for the ASCII addresses the controller handles.
- `IPSetClient.IPSet.UpdateIp`: Go's panic on `HashList[index]` out of range ends the process; the model ends the operation with status `IndexOutOfRange` and keeps the state reached at that point.
