# A verified model of an epoll TCP listener

The program is a single-threaded TCP server. It listens on one socket, puts
every accepted connection into a fixed table of 512 nodes, and watches all of
them with one edge-triggered epoll instance. Each event either closes the
node, accepts every pending connection on the listener, or drains the
connection and copies its bytes to standard output. Two validators check the
`-a address` and `-p port` options before the server starts.

The model has three modules:

- `Kernel` (kernel.dfy) holds what the operating system answers. A `read(2)`
  is `Data(bytes)` or `Failed(errno)`. An accept is `Refused` or `Incoming`,
  together with the outcomes of the allocation, `fcntl` and `epoll_ctl` that
  follow it. The module also holds the Linux values of `EAGAIN`, `EPOLLIN`,
  `EPOLLERR` and `EPOLLHUP`.
- `Options` (options.dfy) models `set_port` and `set_address` as pure
  functions. Each returns the status and the new contents of the caller's
  buffer. The address regex is written as a recogniser, `MatchesOctets`. It is
  proved equivalent to a reference definition, `IsOctetQuad`: four decimal
  numerals of values 0..255 with no leading zeros, each pair separated by one
  arbitrary character.
- `Server` (server.dfy) models `struct server_t` as a class. The node table is
  an `array<Node?>` of 512 slots with a `count`. `Node` is a class whose `id`
  a removal rewrites in place. Adding, removing, destroying, accepting,
  draining, dispatching, option parsing, starting and the init defaults are
  methods, each specified by the pure functions beside it. The ones that loop
  in the C code (draining a channel, the accept loop, the event loop,
  destroying the table, option parsing) carry loop invariants. The class invariant `Valid()` says that the first `count` slots
  hold nodes and that the node in slot `i` has `id == i`. Two ghost fields
  record effects the C code sends to the kernel: `closed` lists the
  descriptors passed to `close(2)`, and `out` lists the bytes
  node_read_buffer writes to standard output. Log lines and the validators'
  messages are not recorded in `out`.

## Model

| member | source | states |
|---|---|---|
| Options.SetPort | options.c:13-26 | Returns 0 exactly when the parsed integer is in 1..65535 and then stores it. Otherwise it returns -1 and the port keeps its old value. |
| Options.SetAddress | options.c:28-66 | Returns 0 exactly when the option is "localhost" or a dotted quad under `IsOctetQuad`, and then copies it into the buffer. Otherwise it returns -1 and the buffer is unchanged. An accepted string always fits in `address[16]`. |
| Options.MatchedLength | options.c:38-39 | A string matching n octet groups has between 2n-1 and 4n-1 characters, so a match of the address pattern has 7 to 15. |
| Options.AcceptedAddressFits | options.c:30-51 | Every string `set_address` copies is shorter than the 16-byte buffer, so the `strcpy` cannot overflow. |
| Options.DecimalIsOctet | options.c:38-39 | The numeral of any value up to 255 matches one of the five octet alternatives. |
| Options.OctetIsDecimal | options.c:38-39 | Every string matching an octet alternative is the numeral, without leading zeros, of a value up to 255. |
| Options.JoinMatches | options.c:38-39 | Octet numerals joined by arbitrary single characters match as many octet groups. |
| Options.MatchSplits | options.c:38-39 | A match of n octet groups splits into n values up to 255 and n-1 separators that rebuild it. |
| Options.PatternMeansOctetQuad | options.c:38-39 | The anchored pattern accepts a string if and only if it is four values in 0..255, without leading zeros, separated by any three characters. |
| Options.AnySeparatorAccepted | options.c:38 | The unescaped `.` lets "1x2y3z4" through as an address. |
| Options.LeadingZeroRefused | options.c:38-39 | "01.2.3.4" is refused and the buffer keeps its old value. |
| Options.ValueAbove255Refused | options.c:38-39 | "256.1.1.1" is refused and the buffer keeps its old value. |
| Server.PutLog | server.c:32-33 | A non-empty message is printed exactly when its level is at most the verbosity. Otherwise nothing is printed. |
| Server.MoreVerbosePrintsMore | server.c:32-33 | A message printed at some verbosity is also printed at every higher one. |
| Server.ErrorsAlwaysPrinted | server.c:244 | Verbosity starts at 0 and options only raise it, so ERROR messages always print. |
| Server.VerboseCounts | server.c:64 | The final verbosity is the initial one plus the number of `-v` options. |
| Server.AddressStaysInBuffer | server.c:65 | After any sequence of options the address still fits in its 16-byte buffer. |
| Server.PortStaysValid | server.c:66 | After any sequence of options the port is still in 1..65535. |
| Server.LastOptionDecidesStatus | server.c:61-67 | The effect of each option on the status: `-h` sets -1, `-a` and `-p` overwrite it with their setter's result, an unrecognised option adds 1, and `-v` keeps it. |
| Server.FailureCancelledByUnrecognised | server.c:66-67 | `-p 0` followed by an unrecognised option ends with status 0. |
| Server.NodeReadBuffer | server.c:212-240 | Reads until the first read that returns 0 or -1. Every earlier chunk reaches standard output in order. Returns 1 exactly when that read failed with EAGAIN, and -1 otherwise. |
| Server.NoLostWakeup | server.c:212-240 | Any pending bytes, cut into 512-byte reads, all reach standard output before the drain returns. The drain returns 1 exactly when it stopped on EAGAIN. |
| Server.Classify | server.c:294-322 | An event closes its node exactly when EPOLLERR or EPOLLHUP is set or EPOLLIN is missing. Otherwise it accepts on the listener's descriptor and drains on any other. |
| Server.AdmittedFitsRoom | server.c:141-145 | The accept loop adds no more connections than there are free slots. |
| Server.FullTableAdmitsNothing | server.c:141-145 | With the table full, the accept loop admits and closes nothing. |
| Server.SwapRemoveEffect | server.c:203-204 | Removing slot k moves the last node into slot k and keeps every other slot. Removing the last slot only shrinks the table. Exactly one occurrence of the removed node leaves the table. |
| Server.SwapRemoveMembers | server.c:203-204 | In a table without duplicates, a removal takes out exactly the removed node. |
| Server.AppendThenRemoveLast | server.c:183-196 | Appending a node and removing it again restores the table exactly. |
| Server.Server.TableDistinct | server.c:177-180 | Since `nodes[i]->id == i`, no node occupies two slots. |
| Server.Server.constructor | server.c:242-252 | server_init's defaults: verbosity 0, port 4242, address "0.0.0.0", no master, and an empty table. The slot array is freshly allocated and the table owns no node yet, so the server aliases nothing its caller holds. |
| Server.Server.ParseOptions | server.c:41-78 | The status and the settings it leaves equal the left-to-right fold `Parsed` of the options over status 0. |
| Server.Server.RemoveNode | server.c:201-210 | `count` drops by one and the last node moves into the removed slot, which the invariant makes it name by id. The table becomes `SwapRemove(old table, id)` and loses exactly that node. The removed descriptor is closed. |
| Server.Server.AddNode | server.c:167-199 | On success the node is fresh, is appended at slot `count` with `id == old count`, and the invariant holds. When `fcntl` or `epoll_ctl` fails, the table is exactly as before and the descriptor is closed. When the allocation fails, nothing changes. |
| Server.Server.AcceptConnection | server.c:139-165 | Returns a node exactly when the table has room and the accept and setup succeed. The node is appended, and a full table refuses without accepting. |
| Server.Server.AcceptPending | server.c:303-308 | `while(server_accept_connection(server) != 0);`: the old table stays as a prefix. The appended descriptors are `Admitted(attempts, free slots)` and the new nodes are fresh. The closed descriptors are `RolledBack(attempts, free slots)`. It also returns the appended nodes as `arrived`: the table is the old table followed by `arrived`, and none of them existed before the call. |
| Server.Server.Destroy | server.c:278-283 | Empties the table and closes the descriptors from the last slot to the first. |
| Server.Server.Start | server.c:254-276 | Returns 0 exactly when bind, epoll_create1, the listener's add and the event buffer all succeed. `sfd` takes the bound descriptor, and `efd` the epoll descriptor once bind succeeded. `master` is untouched when bind or epoll_create1 fails and null when the listener's add fails. When the listener was added it is the only node, in slot 0. Every object the server owns afterwards either it owned before or is new. |
| Server.Server.HandleEvent | server.c:291-322 | One event per `Classify`. A close, or a drain that returns -1, applies `SwapRemove` at the node's id and closes its descriptor. Accepting has the `AcceptPending` effect. A drain that returns 1 leaves the table as it was. Drained bytes are appended to the output, and the closed log grows by `ShutBy`: the node's descriptor when it is removed, the accept loop's rolled-back connection, or nothing. Old nodes stay unless the event removed its own, and no node allocated before enters the table. The nodes the event added are returned as `arrived`. Their descriptors are what the accept loop admitted for the 512 - count free slots it found, and none existed before. The new table holds exactly the old nodes it kept and `arrived`. `count` changes by the number of arrivals, minus one when the event's node left. |
| Server.Server.PollEvents | server.c:285-326 | Returns n and handles events 0..n-1 in order, each with the action `Classify` gives. A handled event's node stays in the table exactly when the event accepted or was drained with result 1. Every other node of the old table stays, and no node allocated before the batch enters. The output grows by the drained bytes in event order. The closed log grows by `shut`, which holds each event's `ShutBy` descriptors for the free slots `rooms[i]` it found. The table sizes along the batch are `sizes`, from the old count to the new one. Event i found `rooms[i] == 512 - sizes[i]` free slots. It added the nodes `arrivals[i]`, whose descriptors are what its accept loop admitted when it accepted, and none otherwise. The next size is `sizes[i]` plus those arrivals, minus one when its node left. The nodes in the table that did not exist before the batch are exactly the arrivals, and every object the server owns afterwards either it owned before or is new. With n == -1 nothing changes. |
| Server.Server.DispatchBatch | server.c:294-322 | The loop over the first n events: after it, each event's action, free slots, closed descriptors, arrivals and table size are the ones `Dispatched` relates to the state before the batch. |

## Left out

- System calls are not modelled, only their outcomes: socket, bind and listen in `create_and_bind`, `epoll_create1`, `epoll_ctl`, `epoll_wait`, `fcntl`, `accept`, `getnameinfo`, `read`, `write`, `close`, `calloc` and `free`. Reads, accepts and setup results are parameters. `close` and `write` are recorded in the ghost logs `closed` and `out`.
- Short or failed `write` calls to standard output: the model assumes each chunk is written whole.
- The tokenising done by `getopt_long` and the "Invalid argument" lines for leftover arguments. `ParseOptions` takes the delivered options, with each `-p` argument already converted by `atoi`.
- Text that does not parse as a number: it reads as 0, which `SetPort` refuses. The rest of `atoi`'s libc behaviour (overflow, leading blanks, trailing text) is not modelled.
- The regcomp failure path and regexec errors other than a non-match. The pattern compiles, so only match or non-match is modelled.
- The text of log messages, `usage` and `perror`. Only the level filter is modelled.
- main.c: the signal handler and the loop that calls server_poll_events until it fails.
- Freeing memory. A removed `Node` object just stops being in the table. The model claims nothing about dangling pointers, including a `master` that an event removed.
- Server.NodeReadBuffer: requires a finite read script in which every read returns at most 512 bytes and some read returns 0 or -1. That is, the peer stops sending eventually and the kernel respects the buffer size.
- Server.Server.AcceptPending: requires that some accept attempt eventually fails, because the listen backlog is finite.
- Server.Server.PollEvents: requires that the events of one batch name distinct nodes that are all in the table, as epoll reports each registered descriptor at most once per wait. A batch that names a node an earlier event in it removed is not modelled.
- Server.Server.RemoveNode: requires the node to be in the table. The C function has no check, and a node outside the table would corrupt it.
- Options.SetAddress: each `char` of the option stands for one byte of the C string, so the contract is faithful only for options whose characters are single bytes. A character encoded in several bytes is one `char` here. So "1é2.3.4" is accepted by the model, while the C code, in the default C locale, refuses it, because `.` matches one byte and `é` is two. For the same reason the bound `|value| < 16` counts characters, not bytes.
- Server.Server.Start: requires an empty table. server_init always runs first in main.c.

Behaviour of the code that the model keeps:

- A failed `fcntl` or `epoll_ctl` on an accepted connection makes server_accept_connection return null. This ends the accept loop for that event (server.c:183-196, server.c:307), even though later connections may still be pending.
- A failed allocation in server_add_node returns null without closing the accepted descriptor (server.c:169-175). `AddNode` leaves `closed` unchanged in that case.
- The final status of parse_options is whatever the last status-changing option left (server.c:61-67), and main.c gives up only on status -1. So an unrecognised option makes the status positive and the server still starts. An unrecognised option after a failure brings the status from -1 back to 0 (`FailureCancelledByUnrecognised`).
- The octet separator in the address pattern is the unescaped `.`, which stands for any character (options.c:38). `AnySeparatorAccepted` shows "1x2y3z4" is accepted.
