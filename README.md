# olric-testground-plans: harness logic in Dafny

A model of the deterministic logic inside the Olric test plans for the
Testground runner, with proofs of what that logic guarantees:

- **Address allocation** (`sdks/network/network.go`): `sameAddrs`, the check
  that the host's interface addresses did not drift across the barrier; the
  octets `ipC`/`ipD` derived from the barrier's sequence number; and `New`,
  which asks the control plane for the `"network-configured"` state, waits at
  the `"ip-allocation"` barrier, re-reads the interfaces, and then asks for
  the `"ip-changed"` state with the instance's own address and a /24 mask.
- **Log classification** (`plans/standalone/olric.go`, `tgLogger.Write`): one
  trailing newline is trimmed, and the line is recorded as a failure (it
  contains `[ERROR]`), a crash (`[FATAL]` but not `[ERROR]`) or a message.
- **Fixtures and registry** (`plans/standalone/main.go`): `toKey` (`%09d`),
  `toVal` (`%010d`) and the `testcases` map from scenario name to scenario.

Files and modules:

| file | module | contents |
|---|---|---|
| base.dfy | `Base` | `Option`, `Result` (Go's `(T, error)`), `Byte`, `Int64`, Go byte strings |
| format.dfy | `Format` | Go's `%d` / `%0Nd`, reading decimals back, Go's string order |
| runtime.dfy | `Runtime` | the run environment: event log, test subnet, instance count |
| network.dfy | `Network` | `sameAddrs`, the octet derivation, `New` |
| logger.dfy | `Logger` | trimming, `bytes.Contains`, classification, `tgLogger.Write` |
| fixtures.dfy | `Fixtures` | `toKey`, `toVal`, the scenario registry |
| scenarios.dfy | `Scenarios` | the absent-key check of `DMapGetPut` (see Findings) |

Modelling conventions:

- A Go `string` or `[]byte` is a sequence of `ByteChar`: one character per
  byte, with code below 256. `len` is the sequence length.
- Go's `int64 >> 8` is an arithmetic shift, so it is floor division by 256.
  Dafny's `/` gives the same result for a positive divisor. Go's `byte(x)`
  keeps the low eight bits, which is `x % 256` (never negative in Dafny).
- `net.InterfaceAddrs` results are parameters of `New` (`oldAddrs`,
  `newAddrs`), as is the barrier's sequence number (`seqNo`). Each address is
  represented by its `String()` form, because `sameAddrs` compares only that.
- Each `MustConfigureNetwork` call appends a snapshot of the config to the
  ghost list `NetClient.applied`. `RecordMessage`, `RecordFailure` and
  `RecordCrash` append to `RunEnv.events`.
- `_config.IPv4 = runenv.TestSubnet` copies a reference. The address and mask
  are therefore written into the run environment's own subnet object, and
  the model keeps that sharing (`cfg.ipv4 == runenv.testSubnet`).

## Model

| member | source | states |
|---|---|---|
| `Network.SameAddrs` | sdks/network/network.go:14-28 | true exactly when both lists have the same length and every address of `b`, compared by string, occurs in `a`; false whenever the lengths differ |
| `Network.CoversReflexive` | sdks/network/network.go:14-28 | an unchanged address list always passes the drift check |
| `Network.CoversPermutation` | sdks/network/network.go:14-28 | the same addresses listed in another order pass |
| `Network.CoversNotSymmetric` | sdks/network/network.go:18-27 | with a repeated address, the check holds one way and fails the other |
| `Network.CoversDistinctSameSet` | sdks/network/network.go:18-27 | if the new list has no repeats, passing means both lists hold exactly the same addresses |
| `Network.IpC` | sdks/network/network.go:70 | `byte((seq >> 8) + 1)`, with Go's arithmetic shift and byte truncation. The result is the high byte of the 16-bit host number `(seq + 256) mod 65536` |
| `Network.IpD` | sdks/network/network.go:71 | `byte(seq)`: the one byte congruent to `seq` modulo 256, which is also the low byte of `(seq + 256) mod 65536` |
| `Network.HostNumber` | sdks/network/network.go:70-71 | `ipC * 256 + ipD == (seq + 256) mod 65536` for every int64 `seq` |
| `Network.SameOctetsIff` | sdks/network/network.go:70-71 | two sequence numbers give the same `(ipC, ipD)` exactly when they agree modulo 65536 |
| `Network.DistinctOctets` | sdks/network/network.go:70-71 | distinct sequence numbers less than 65536 apart (so any `0 <= s1 < s2 <= 65535`) give distinct octet pairs |
| `Network.WrapAround` | sdks/network/network.go:70-71 | `seq` and `seq + 65536` give the same octets |
| `Network.HighOctetZero` | sdks/network/network.go:70 | for `0 <= seq < 65536`, `ipC == 0` exactly when `seq >= 65280`, so `ipC != 0` below 65280 |
| `Network.AssignedIP` | sdks/network/network.go:73-74 | the address has 4 bytes and starts with the subnet's first two bytes |
| `Network.AssignedIPHostNumber` | sdks/network/network.go:70-74 | the address's last two bytes, read as a 16-bit number, are `(seq + 256) mod 65536` |
| `Network.RoundAddressesDistinct` | sdks/network/network.go:59-74 | pairwise distinct sequence numbers within one window of 65536 values get pairwise distinct addresses |
| `Network.NetClient.MustConfigureNetwork` | sdks/network/network.go:57 | each configuration request adds the config as it is at call time to the recorded list |
| `Network.NewErrorCases` | sdks/network/network.go:36-66 | no error exactly when both interface reads succeed and the drift check passes; with drift it is `"interfaces changed"`, otherwise the failing read's error |
| `Network.FailedNewNeverChangesIp` | sdks/network/network.go:52-66 | when `New` fails, its requests are none or only `"network-configured"`, so `"ip-changed"` is never requested |
| `Network.SuccessfulNewRequests` | sdks/network/network.go:52-80 | past the drift check there are exactly two requests: `"network-configured"` without an address, then `"ip-changed"` with the derived address and mask `255.255.255.0` |
| `Network.UnchangedInterfacesPass` | sdks/network/network.go:62-66 | identical interface lists before and after the barrier never make `New` fail |
| `Network.ConfigureDefault` | sdks/network/network.go:41-57 | a fresh config for the `"default"` network: enabled, routing `DenyAll`, no address; one `"network-configured"` request and one message are recorded |
| `Network.ChangeIp` | sdks/network/network.go:68-78 | records `"I am <seq>"`. It writes the derived address and mask into the shared subnet object, sets the config's address to that object, and requests `"ip-changed"` with them |
| `Network.New` | sdks/network/network.go:30-81 | returns `NewError`'s result, and a config exactly when there is no error. It makes the requests and records the messages that `NewRequests` and `NewMessages` list for that outcome. On error the subnet is unchanged. On success the fresh config is enabled, routes `DenyAll`, is in state `"ip-changed"` and shares the run environment's subnet object, which now holds the derived address and mask |
| `Logger.TrimNewline` | plans/standalone/olric.go:33 | the input is the result plus one `"\n"` if it ended in one, and the result unchanged otherwise |
| `Logger.TrimOnlyOne` | plans/standalone/olric.go:33 | of two trailing newlines only one is removed |
| `Logger.Contains` | plans/standalone/olric.go:35-37 | true exactly when the marker occurs at some position of the line |
| `Logger.Classify` | plans/standalone/olric.go:34-41 | `Error` exactly when `[ERROR]` occurs; `Fatal` exactly when `[FATAL]` occurs and `[ERROR]` does not; `Info` when neither occurs |
| `Logger.LineEvent` | plans/standalone/olric.go:34-41 | the event's text is the trimmed line; it is a failure, crash or message as the line classifies |
| `Logger.ErrorBeforeFatal` | plans/standalone/olric.go:34-38 | a line with both markers is recorded as a failure, not a crash |
| `Logger.TgLogger.Write` | plans/standalone/olric.go:32-43 | records exactly one event for the line. It returns the input length, minus one if the input ended in `"\n"`, and never an error |
| `Format.FormatInt` | plans/standalone/main.go:36-42 | `fmt.Sprintf` with `%0<width>d`, also used as `%d` for `"I am %d"` (sdks/network/network.go:68). The result is at least `width` long: digits only, or a minus sign then digits. A result wider than `width` and longer than one character has no leading zero. `Format.FormatIntRoundTrip` proves it reads back |
| `Format.Digits` | plans/standalone/main.go:37 | at least one character, all decimal digits, and no leading zero for a positive number |
| `Format.DigitsValue` | plans/standalone/main.go:37 | reading the digits of `n` gives `n` |
| `Format.DigitsLength` | plans/standalone/main.go:37 | `n` has at most `k` digits exactly when `n < 10^k` |
| `Format.FormatIntRoundTrip` | plans/standalone/main.go:36-42 | every integer formatted with any zero-padded width reads back as itself |
| `Format.LexLessIsNumericLess` | plans/standalone/main.go:36-38 | on digit strings of equal length, Go's string order agrees with numeric order |
| `Fixtures.ToKey` | plans/standalone/main.go:36-38 | the key reads back as `i`; for `0 <= i < 10^9` it is 9 characters, all digits |
| `Fixtures.ToVal` | plans/standalone/main.go:40-42 | the value reads back as `i`; for `0 <= i < 10^10` it is 10 bytes, all ASCII digits |
| `Fixtures.FixedWidthShape` | plans/standalone/main.go:36-42 | a number in `[0, 10^width)` fills the padded field exactly, with digits only |
| `Fixtures.KeyOrder` | plans/standalone/main.go:36-38 | for `0 <= i < j < 10^9`, `toKey(i) < toKey(j)` in string order, so the keys differ |
| `Fixtures.ValExtendsKey` | plans/standalone/main.go:36-42 | for `0 <= i < 10^9`, `toVal(i)` is `"0"` followed by `toKey(i)` |
| `Fixtures.KeyUnpadded` | plans/standalone/main.go:37 | for `i >= 10^9` the key is the plain numeral: more than 9 characters, no leading zero |
| `Fixtures.Lookup` | plans/standalone/main.go:29-34 | a name is found exactly when it is one of the four registered names, and it finds the scenario of that name |
| `Fixtures.RegistryComplete` | plans/standalone/main.go:29-34 | each of the four scenarios is found under its own name |
| `Scenarios.AbsentKeyFailsAsWritten` | plans/standalone/dmap.go:54-58 | the check as written flags a failure exactly when the read reports `ErrKeyNotFound` |
| `Scenarios.AbsentKeyCheckInverted` | plans/standalone/dmap.go:54-58 | a correct "not found" answer is flagged, and a value found for the absent key passes |
| `Scenarios.AbsentKeyFails` | plans/standalone/dmap.go:54-58 | the intended check passes exactly on `ErrKeyNotFound`, the opposite of the check as written |

## Left out

- The node lifecycle `olricNode` (plans/standalone/olric.go:45-97). It is a background goroutine around the blocking `db.Start`, a context cancelled by the `Started` callback, and a 10-second shutdown timeout, all calls into the external Olric node. When `Start` fails, the code records a crash but never cancels the context, so a waiting caller is not released. No transition for that case is modelled.
- The scenario bodies in plans/standalone/dmap.go. They drive the store's Put/Get/Delete/PutEx/PutIf and wait on the wall clock, so their outcome is the store's behaviour. The one exception is the absent-key check under Findings.
- `getIPAddress` (plans/standalone/main.go:44-56) and `main` (plans/standalone/main.go:58-60): sync-client plumbing and a call into the runner.
- `net.InterfaceAddrs`, `MustSignalAndWait` and `MustConfigureNetwork`: they are I/O and a distributed barrier. Their results are parameters of `New`, and a configuration request is only recorded. A `Must…` panic is not modelled.
- The barrier's promise of unique sequence numbers is not modelled. `Network.RoundAddressesDistinct` takes distinct numbers as its premise.
- The `LinkShape` latency and bandwidth of the first request (sdks/network/network.go:48-51): constants for the control plane that no logic here reads.
- The `"ip-allocation"` state name and instance count passed to the barrier are not recorded.
- `Network.New` requires the test subnet's address to have at least two bytes, but only when both interface reads succeed and the drift check passes. Only then does the code reach the slice `IP[0:2:2]`, which panics on a shorter address, and a panic is not an error the code returns.
- Log lines are formatted with `fmt.Errorf("%s", …)` before recording. The model records the text itself, which is what that error prints.

## Findings

| source | as written | input that shows it | evidently intended | confidence | as-written member | corrected member |
|---|---|---|---|---|---|---|
| plans/standalone/dmap.go:54-58 | records a failure when `dm.Get("foobar")` returns `ErrKeyNotFound` | a store that correctly reports the never-written key `"foobar"` as not found | record a failure unless the read reports `ErrKeyNotFound` | high (by reading; not executed) | `Scenarios.AbsentKeyCheckInverted` | `Scenarios.AbsentKeyFails` |
