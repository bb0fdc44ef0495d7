# raftmod: serf sub-command dispatch and private-address discovery

This project is a Dafny model of two small pieces of the `raftmod` Go module.

1. **The `serf` command** (`raftcmd/serf_cmd.go`). Sub-command plugins are
   injected into a table. `PostConstruct` sorts the table in place by
   sub-command name. `findCommand` looks a name up with `sort.Search` and then
   checks for an exact match. `Run` takes the command-line arguments: no
   arguments shows the help, otherwise the first argument names the
   sub-command. An unknown name fails before any connection is attempted. A
   known name is run by `doRun`, which connects to the Serf agent, invokes the
   handler on the remaining arguments and closes the client. The agent address
   is first rewritten by `getConnectAddress`: a wildcard or bare-port listen
   address becomes a loopback address.
2. **Private-address discovery** (`utils.go`). `isPrivateIP` tests whether an
   address lies in one of the three private blocks of section 3 of RFC 1918.
   `LocalIP` walks the host's interfaces and their addresses in order. It
   returns the first private address, or the first operating-system error it
   meets.

Files:

- `wrappers.dfy`: `Option` and `Result`.
- `go_strings.dfy`: Go's string order (`<` compares byte-wise over UTF-8,
  which is code-point order), `strings.HasPrefix`, `strings.Join`, and a
  splitting function used to state that the joined name list can be read
  back.
- `go_net.dfy`: the parts of `net` that `utils.go` relies on: `IP.To4` and
  `IPNet.Contains`.
- `serf_cmd.dfy`: module `SerfCmd`. `SerfCommand` is a class over an array of
  `Command` records, the `SerfCommands` field that `PostConstruct` reorders.
  The Serf client is abstracted into two function parameters, `connect` and
  `invoke`. `Run` returns a trace of effects (help shown, connect, invoke,
  close) so that what happens before and after a connection can be stated.
- `utils.dfy`: module `RaftMod`. `IsPrivateIP` and `LocalIP` are the loops of
  `utils.go`. They are proved equal to pure reference definitions
  (`IsPrivate`, `LocalIPOf`), and the lemmas about those definitions state
  what `utils.go` promises.

Two details of the code worth stating:

- An IPv4-mapped IPv6 address (`::ffff:a.b.c.d`) is private exactly when its
  IPv4 part is, because `IPNet.Contains` reduces it with `To4`.
- A connection failure carries only the cause (`raftcmd/serf_cmd.go:104`); a
  handler failure carries the address and the cause
  (`raftcmd/serf_cmd.go:109`).

## Model

| member | source | states |
|---|---|---|
| GoStrings.Less | raftcmd/serf_cmd.go:42 | Go's string `<` (and, negated, the `>=` at raftcmd/serf_cmd.go:50): never holds between equal strings, and a proper prefix sorts first |
| GoStrings.Join | raftcmd/serf_cmd.go:119 | `strings.Join`: a single part is returned as it is, and the result starts with the first part |
| GoStrings.HasPrefix | raftcmd/serf_cmd.go:133-136 | `strings.HasPrefix`: a string with the prefix is the prefix followed by the rest of the string |
| GoStrings.JoinFirstField | raftcmd/serf_cmd.go:119 | in a list joined with a separator that the first part does not contain, the first separator ends the first part, and what follows is the join of the other parts |
| GoStrings.LessIrreflexive | raftcmd/serf_cmd.go:42 | no name sorts before itself under Go's string `<` |
| GoStrings.LessAsymmetric | raftcmd/serf_cmd.go:42 | two names are never each before the other |
| GoStrings.LessTransitive | raftcmd/serf_cmd.go:42 | string order is transitive |
| GoStrings.LessTotal | raftcmd/serf_cmd.go:42 | any two distinct names are ordered one way or the other, so the comparison used for sorting is a total order |
| GoStrings.LessOrEqualTransitive | raftcmd/serf_cmd.go:50 | `<=`, the complement of `<` that the `>=` test of the search negates, is itself transitive |
| GoStrings.SplitJoin | raftcmd/serf_cmd.go:119 | joining a non-empty list of names that contain no separator can be undone by splitting: the joined list loses no name and adds none (an empty list joins to `""`, which splits into one empty field) |
| SerfCmd.Lookup | raftcmd/serf_cmd.go:47-59 | reference lookup: a found entry is in the table and has exactly the key as name; nothing is found exactly when no entry has that name |
| SerfCmd.LookupUnique | raftcmd/serf_cmd.go:47-59 | with unique names, looking up an entry's name gives back that entry |
| SerfCmd.AdjacentSortedIsSorted | raftcmd/serf_cmd.go:39-45 | a table whose neighbours are in order is sorted pairwise |
| SerfCmd.SortedPermutationsSameHead | raftcmd/serf_cmd.go:39-45 | two sorted permutations of a uniquely named table start with the same entry |
| SerfCmd.SortedPermutationsEqual | raftcmd/serf_cmd.go:39-45 | two sorted permutations of a uniquely named table are equal, so the outcome of the sort does not depend on the sorting algorithm |
| SerfCmd.TailPermutation | raftcmd/serf_cmd.go:39-45 | removing the same first entry from two permutations leaves permutations |
| SerfCmd.TailSorted | raftcmd/serf_cmd.go:39-45 | the tail of a sorted table is sorted and keeps unique names |
| SerfCmd.GetConnectAddress | raftcmd/serf_cmd.go:132-140 | the connect address is either a loopback address or the listen address unchanged |
| SerfCmd.ConnectAddressOfWildcard | raftcmd/serf_cmd.go:133-134 | `0.0.0.0:p` becomes `127.0.0.1:p` |
| SerfCmd.ConnectAddressOfBarePort | raftcmd/serf_cmd.go:136-137 | `:p` becomes `127.0.0.1:p` |
| SerfCmd.ConnectAddressOfOther | raftcmd/serf_cmd.go:139 | any other address is returned unchanged |
| SerfCmd.ConnectAddressIdempotent | raftcmd/serf_cmd.go:132-140 | rewriting a rewritten address changes nothing |
| SerfCmd.DefaultAddressIsConnectable | raftcmd/serf_cmd.go:26 | the default Serf address `127.0.0.1:8800` is used as it is |
| SerfCmd.DoRun | raftcmd/serf_cmd.go:99-112 | a failed connection to the rewritten address is reported as a connection failure with its cause, and nothing happens after it. Over an open connection the handler runs once on exactly the given arguments and the client is closed last. A handler failure is reported with the address and its cause, and there is no error exactly when both steps succeed |
| SerfCmd.DoRunConnectionDiscipline | raftcmd/serf_cmd.go:100-107 | for every outcome: the first step is the connect, the handler is invoked only on its own arguments and only over an open connection, and the client is closed exactly when it was opened, as the last step |
| SerfCmd.SerfCommand.constructor | raftcmd/serf_cmd.go:19-29 | the table holds the injected commands in injection order, together with the configured address and token |
| SerfCmd.SerfCommand.PostConstruct | raftcmd/serf_cmd.go:39-45 | afterwards the table is sorted ascending by name and is a permutation of the injected table |
| SerfCmd.SerfCommand.InsertAt | raftcmd/serf_cmd.go:40-43 | one insertion pass extends the sorted prefix by one entry, leaves every entry after it unchanged, and keeps the table a permutation (so the first `i + 1` entries are a permutation of the old ones) |
| SerfCmd.SerfCommand.Swap | raftcmd/serf_cmd.go:40-43 | exchanging two entries changes nothing else and keeps a permutation |
| SerfCmd.SerfCommand.SearchIndex | raftcmd/serf_cmd.go:48-51 | the index is at most the table length, the entry before it sorts before the key, and the entry at it does not. On a sorted table every entry before the index is `< key` and every entry from it on is `>= key`, so it is the least such index |
| SerfCmd.SerfCommand.FindCommand | raftcmd/serf_cmd.go:47-59 | a found command is in the table and is named exactly the key. On a sorted table a command is found if and only if its name is present, so an empty table finds nothing. On a sorted table the result is the reference lookup, the first entry of that name, duplicates included |
| SerfCmd.SerfCommand.SubCommands | raftcmd/serf_cmd.go:114-120 | the names in table order, joined by `,`. For a non-empty table in which no name contains a comma, splitting the result gives back exactly the table's names (an empty table gives `""`, which splits into one empty field) |
| SerfCmd.SerfCommand.Synopsis | raftcmd/serf_cmd.go:122-130 | `serf commands [` followed by the joined names and `]` |
| SerfCmd.SerfCommand.Run | raftcmd/serf_cmd.go:81-97 | no arguments: help is shown, there is no error and no connection. An unknown first argument: the error names it together with the known names, and nothing else happens (no connection). A known first argument: `doRun` runs with a handler of that name and exactly the remaining arguments, and that handler is the one the reference lookup gives |
| SerfCmd.ScenarioTableSorted | raftcmd/serf_cmd.go:39-45 | the table `join, leave, members` is sorted with unique names |
| SerfCmd.ScenarioTableIsTheSortedOrder | raftcmd/serf_cmd.go:39-59 | any sorted permutation of those three plugins is that table |
| SerfCmd.FindInScenario | raftcmd/serf_cmd.go:47-59 | on the sorted scenario table, looking up `members` finds that plugin and looking up `evict` finds nothing |
| SerfCmd.SortThenFindExample | raftcmd/serf_cmd.go:39-59 | the plugins injected as `leave, members, join` are sorted by `PostConstruct` into the scenario table, after which `members` is found and `evict` is not |
| SerfCmd.LookupFirst | raftcmd/serf_cmd.go:47-59 | the entry named `key` with no entry of that name before it is the one the reference lookup finds |
| GoNet.Contains | utils.go:84 | `block.Contains(ip)`: a four-byte address is compared with the network under the mask; a 16-byte address only through its IPv4-mapped form; an address of any other length, `nil` included, is never contained |
| GoNet.To4 | utils.go:84 | the IPv4 form of an address has length 0 or 4; a four-byte address is its own IPv4 form; an address of any length other than 4 or 16 has none |
| RaftMod.ParseCidr | utils.go:79 | each literal parses to a well-formed IPv4 network |
| RaftMod.PrivateBlocks | utils.go:69-81 | block `k` is the parse of literal `k`, so there are three blocks in the order of the literals, all well formed |
| RaftMod.AddrIP | utils.go:51-57 | the type switch: the address's own IP for `*net.IPNet` and `*net.IPAddr`, `nil` for any other address type |
| RaftMod.IsPrivateIP | utils.go:68-90 | the block-building loop and the early-return scan answer exactly whether some private block contains the address |
| RaftMod.InBlock10 | utils.go:75 | an IPv4 address is in 10.0.0.0/8 exactly when its first byte is 10 |
| RaftMod.InBlock172 | utils.go:76 | an IPv4 address is in 172.16.0.0/12 exactly when it starts with 172 and its second byte is in 16..31 |
| RaftMod.InBlock192 | utils.go:77 | an IPv4 address is in 192.168.0.0/16 exactly when it starts with 192.168 |
| RaftMod.IsPrivateIffInRfc1918 | utils.go:68-90 | an address is private exactly when its IPv4 form exists and lies in one of the three RFC 1918 ranges |
| RaftMod.IsPrivateV4 | utils.go:75-77 | for a four-byte address, privacy is the RFC 1918 byte-range test |
| RaftMod.PrivateExamplesOuterBlocks | utils.go:75-77 | 10.1.2.3, 10.255.255.255 and 192.168.1.1 are private; 11.0.0.0 and 192.169.0.0 are not |
| RaftMod.PrivateExamplesMiddleBlock | utils.go:76 | 172.16.0.0 and 172.31.255.255 are private; 172.15.255.255 and 172.32.0.0 are not |
| RaftMod.PrivateExamplesExcluded | utils.go:71-74 | 127.0.0.1, 169.254.1.1 and 8.8.8.8 are not private |
| RaftMod.LoopbackAndLinkLocalNotPrivate | utils.go:71-74 | no four-byte loopback (127/8) or link-local (169.254/16) address is private (the IPv4-mapped forms follow through `RaftMod.IPv6AndNilPrivacy`) |
| RaftMod.IPv6AndNilPrivacy | utils.go:84 | `nil` and 16-byte addresses that are not IPv4-mapped are never private; an IPv4-mapped address is private exactly when its IPv4 part is |
| RaftMod.OtherAddrNeverPrivate | utils.go:51-59 | an address of any other type leaves the IP `nil` and is never selected |
| RaftMod.FirstPrivateIndex | utils.go:50-62 | the index is at most the number of addresses and no address below it is private; when it is less than that number the address there is private, and the number itself means none is |
| RaftMod.FirstPrivateIndexUnique | utils.go:50-62 | the first private address is the private one that has no private address before it |
| RaftMod.FirstPrivateAddrNone | utils.go:50-62 | an interface yields nothing exactly when none of its addresses is private |
| RaftMod.FirstPrivateOf | utils.go:50-62 | the inner loop returns the first private address of the interface, or nothing |
| RaftMod.ScanFoundIsFirstPrivate | utils.go:44-62 | a returned address is private, and it is the first private address in interface-then-address order, every earlier interface having listed its addresses |
| RaftMod.FirstPrivateIsFound | utils.go:44-62 | conversely, the first private address in that order is the one returned |
| RaftMod.ScanNoIP | utils.go:44-65 | "no IP" is returned exactly when every interface listed its addresses and none of them is private |
| RaftMod.ScanOsError | utils.go:44-48 | an address-listing error is returned as it is, exactly when it comes from an interface before which no interface failed or had a private address |
| RaftMod.LocalIP | utils.go:39-66 | the nested loops return the reference result: the enumeration error, the first private address, or "no IP". A returned address is private |

## Left out

- Help text (`Help`, `raftcmd/serf_cmd.go:62-79`) and its `println`: column layout by an external formatter. `Run` records only that the help is shown.
- The Serf client (`client.ClientFromConfig`, `handler.Run`, `Close`): a network client. It is replaced by the `connect` and `invoke` parameters and the effect trace.
- Dependency injection (`BeanName`, `SerfCommands()`, struct tags) and `Application.Name()`/`Executable()`: framework wiring. The unknown-command error keeps the command name and the known names, not the application name.
- Error message texts: the model keeps the error kinds and their data.
- The loop in `Synopsis` that builds a list it never uses (`raftcmd/serf_cmd.go:124-127`): it has no effect.
- SerfCmd.SerfCommand.PostConstruct: `sort.Slice` (pattern-defeating quicksort) is modelled by an insertion sort. Both sort by the same comparison. With unique names, `SerfCmd.SortedPermutationsEqual` shows the result is the same whatever the algorithm. With duplicate names, the relative order of equal names (`sort.Slice` is not stable) is not modelled.
- SerfCmd.SerfCommand.Run: requires a sorted table, that is, that `PostConstruct` has run. With duplicate names the handler is the first of that name in the sorted table; which of the duplicates that is depends on `sort.Slice`, which the model does not fix (see the line above).
- `createDirIfNeeded` and `EmptyAddr` (`utils.go:14-35`): file-system I/O and trivial constant methods.
- `net.Interfaces()` and `Addrs()`: operating-system calls. They are inputs, each either a list or the error the call returned.
- `net.ParseCIDR`: the three literals are given as already-parsed constants.
- GoNet.Contains: Go applies the mask with a byte-wise AND. The model compares the top bits of each byte, which is the same for the prefix masks `ParseCIDR` produces. Masks that are not prefixes do not occur here.
- IPv6 blocks: none are checked (the IPv6 literals are commented out in `utils.go`). A 16-byte address is reduced by `To4` or else never contained.
- GoStrings.Less: Go strings are byte strings and may hold invalid UTF-8, which a sequence of characters cannot represent. The byte-wise order equals the character order only for valid UTF-8.
- `utils_test.go`: it calls a function `PrivateIP` that `utils.go` does not define, so it states nothing about this code.
