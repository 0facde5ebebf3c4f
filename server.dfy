/** The connection table and event dispatch of server.c, with the constants and
    record layouts of server.h.

    The table is `nodes[MAXNODES]` with a `count`: the live nodes sit in the
    first `count` slots and each knows its own slot in its `id`. Adding appends
    at `count`; removing moves the last node into the freed slot. The event
    loop classifies each epoll event and removes the node, drains the
    listener's pending connections, or drains the node's pending bytes. */
module Server {
  import opened Kernel
  import Options

  const MaxEvents := 64
  const MaxNodes := 512

  /** `enum log_level_t`. */
  const Error := 0
  const Info := 1
  const Debug := 2

  /** The stack buffer node_read_buffer reads into. */
  const ReadBufferSize := 512

  // ===========================================================================
  // putlog: the verbosity filter
  // ===========================================================================

  /** What putlog writes: the message when its level is within the verbosity,
      nothing otherwise. */
  function PutLog(verbose: int, level: int, text: string): (printed: string)
    ensures printed == text || printed == []
    ensures text != [] ==> (printed == text <==> level <= verbose)
  {
    if verbose < level then [] else text
  }

  /** Raising the verbosity never silences a message that was printed. */
  lemma MoreVerbosePrintsMore(v1: int, v2: int, level: int, text: string)
    requires v1 <= v2 && text != []
    requires PutLog(v1, level, text) == text
    ensures PutLog(v2, level, text) == text
  {
  }

  // ===========================================================================
  // parse_options: folding the option letters into status and the settings
  // ===========================================================================

  /** One option as getopt_long delivers it. `Port` carries what `atoi` made of
      its argument; `Unrecognised` stands for every other return of getopt_long
      (an unknown letter or a missing argument). */
  datatype Opt = Help | Verbose | Address(arg: string) | Port(parsed: int) | Unrecognised

  /** The running status of parse_options and the server fields it writes. */
  datatype Settings = Settings(status: int, verbose: int, port: int, address: string)

  /** The effect of one option on the status and the settings. */
  function ApplyOption(s: Settings, o: Opt): Settings
  {
    match o
    case Help => s.(status := -1)
    case Verbose => s.(verbose := s.verbose + 1)
    case Address(arg) =>
      var r := Options.SetAddress(s.address, arg);
      s.(status := r.status, address := r.value)
    case Port(p) =>
      var r := Options.SetPort(s.port, p);
      s.(status := r.status, port := r.value)
    case Unrecognised => s.(status := s.status + 1)
  }

  /** The options applied one after the other, from the left. */
  function Parsed(opts: seq<Opt>, s: Settings): Settings
    decreases |opts|
  {
    if opts == [] then s else ApplyOption(Parsed(opts[..|opts| - 1], s), opts[|opts| - 1])
  }

  function CountVerbose(opts: seq<Opt>): nat
    decreases |opts|
  {
    if opts == [] then 0
    else CountVerbose(opts[..|opts| - 1]) + (if opts[|opts| - 1] == Verbose then 1 else 0)
  }

  /** `-v` adds one to the verbosity per occurrence, and nothing else touches it. */
  lemma {:induction false} VerboseCounts(opts: seq<Opt>, s: Settings)
    ensures Parsed(opts, s).verbose == s.verbose + CountVerbose(opts)
    decreases |opts|
  {
    if opts != [] {
      VerboseCounts(opts[..|opts| - 1], s);
    }
  }

  /** However many `-a` options are given, the address stays within its buffer. */
  lemma {:induction false} AddressStaysInBuffer(opts: seq<Opt>, s: Settings)
    requires |s.address| < Options.AddressBufferSize
    ensures |Parsed(opts, s).address| < Options.AddressBufferSize
    decreases |opts|
  {
    if opts != [] {
      AddressStaysInBuffer(opts[..|opts| - 1], s);
    }
  }

  /** However many `-p` options are given, the port stays in 1..65535. */
  lemma {:induction false} PortStaysValid(opts: seq<Opt>, s: Settings)
    requires Options.MinPort <= s.port <= Options.MaxPort
    ensures Options.MinPort <= Parsed(opts, s).port <= Options.MaxPort
    decreases |opts|
  {
    if opts != [] {
      PortStaysValid(opts[..|opts| - 1], s);
    }
  }

  /** The status is decided by the last option: `-h` makes it -1, `-a` and `-p`
      overwrite it with their setter's result, an unrecognised option adds one,
      and `-v` keeps it. */
  lemma LastOptionDecidesStatus(opts: seq<Opt>, o: Opt, s: Settings)
    ensures var before := Parsed(opts, s).status;
            Parsed(opts + [o], s).status ==
              match o
              case Help => -1
              case Verbose => before
              case Address(arg) => if arg == "localhost" || Options.IsOctetQuad(arg) then 0 else -1
              case Port(p) => if Options.MinPort <= p <= Options.MaxPort then 0 else -1
              case Unrecognised => before + 1
  {
    assert (opts + [o])[..|opts|] == opts;
  }

  /** A failure does not survive an unrecognised option after it: `-p 0 -x`
      ends with status 0, the value that lets the server start. */
  lemma FailureCancelledByUnrecognised(s: Settings)
    ensures Parsed([Port(0), Unrecognised], s).status == 0
  {
    assert [Port(0), Unrecognised][..1] == [Port(0)];
    assert [Port(0)][..0] == [];
  }

  /** The defaults server_init writes before parsing. */
  const DefaultPort := 4242
  const DefaultAddress := "0.0.0.0"

  /** After server_init the verbosity is at least 0, so ERROR messages are
      always printed. */
  lemma ErrorsAlwaysPrinted(opts: seq<Opt>, text: string)
    ensures PutLog(Parsed(opts, Settings(0, 0, DefaultPort, DefaultAddress)).verbose, Error, text) == text
  {
    VerboseCounts(opts, Settings(0, 0, DefaultPort, DefaultAddress));
  }

  // ===========================================================================
  // node_read_buffer: draining a channel
  // ===========================================================================

  /** A read the loop continues after: it returned more than zero bytes. */
  predicate Continues(r: ReadResult) {
    r.Data? && |r.bytes| > 0
  }

  /** read(2) never returns more than the buffer it is given. */
  predicate FitsBuffer(r: ReadResult) {
    r.Data? ==> |r.bytes| <= ReadBufferSize
  }

  /** The kernel's answers to successive reads on one channel: each fits the
      buffer, and one of them eventually returns zero or -1 (the channel holds
      finitely many bytes). */
  ghost predicate ReadScript(script: seq<ReadResult>) {
    (forall i :: 0 <= i < |script| ==> FitsBuffer(script[i]))
    && exists i :: 0 <= i < |script| && !Continues(script[i])
  }

  /** The position of the first read that returns zero or -1. */
  function FirstStop(script: seq<ReadResult>): (j: nat)
    requires exists i :: 0 <= i < |script| && !Continues(script[i])
    ensures j < |script| && !Continues(script[j])
    ensures forall i :: 0 <= i < j ==> Continues(script[i])
    decreases |script|
  {
    if !Continues(script[0]) then 0
    else
      assert exists i :: 0 <= i < |script[1..]| && !Continues(script[1..][i]) by {
        var i :| 0 <= i < |script| && !Continues(script[i]);
        assert script[1..][i - 1] == script[i];
      }
      1 + FirstStop(script[1..])
  }

  /** The bytes of the script, in order. */
  function Concat(script: seq<ReadResult>): seq<bv8>
    decreases |script|
  {
    if script == [] then []
    else Concat(script[..|script| - 1]) + (match script[|script| - 1] case Data(b) => b case Failed(_) => [])
  }

  /** node_read_buffer's result for the read that stopped it: 1 when the read
      would block, -1 at end of file or on any other error. */
  function StopStatus(r: ReadResult): int {
    if r.Failed? && r.errno == EAGAIN then 1 else -1
  }

  /** What draining a channel returns. */
  function DrainStatus(script: seq<ReadResult>): int
    requires ReadScript(script)
  {
    StopStatus(script[FirstStop(script)])
  }

  /** The bytes draining a channel writes to standard output. */
  function Drained(script: seq<ReadResult>): seq<bv8>
    requires ReadScript(script)
  {
    Concat(script[..FirstStop(script)])
  }

  /** Whether handling an event with action `a` leaves its node in the table:
      the listener always stays, a drained channel stays when its last read
      would have blocked, everything else is closed. */
  predicate Keeps(a: Action, script: seq<ReadResult>)
    requires ReadScript(script)
  {
    a == AcceptAll || (a == Drain && DrainStatus(script) == 1)
  }

  /** node_read_buffer: read 512-byte chunks until a read returns zero or -1,
      writing every chunk to standard output as it arrives. Returns the status,
      the bytes written, and the number of reads made. */
  method NodeReadBuffer(script: seq<ReadResult>) returns (alive: int, written: seq<bv8>, used: nat)
    requires ReadScript(script)
    ensures used == FirstStop(script) + 1
    ensures alive == StopStatus(script[used - 1]) && alive == DrainStatus(script)
    ensures written == Concat(script[..used - 1]) && written == Drained(script)
  {
    alive := 1;
    written := [];
    used := 0;
    var count := 0;
    while true
      invariant used <= FirstStop(script)
      invariant alive == 1
      invariant written == Concat(script[..used])
      decreases |script| - used
    {
      var r := script[used];
      used := used + 1;
      match r {
        case Failed(errno) =>
          count := -1;
          if errno != EAGAIN {
            alive := -1;
          }
        case Data(bytes) =>
          count := |bytes|;
          if count == 0 {
            alive := -1;
          } else {
            assert script[..used][..used - 1] == script[..used - 1];
            written := written + bytes;
          }
      }
      if !(count > 0 && alive != 0) {
        break;
      }
      assert Continues(r);
    }
  }

  /** The chunks a channel holding `pending` bytes hands to successive 512-byte reads. */
  function Chunks(pending: seq<bv8>): seq<ReadResult>
    decreases |pending|
  {
    if pending == [] then []
    else if |pending| <= ReadBufferSize then [Data(pending)]
    else [Data(pending[..ReadBufferSize])] + Chunks(pending[ReadBufferSize..])
  }

  lemma {:induction false} ChunksShape(pending: seq<bv8>)
    ensures forall i :: 0 <= i < |Chunks(pending)| ==> Continues(Chunks(pending)[i]) && FitsBuffer(Chunks(pending)[i])
    ensures Concat(Chunks(pending)) == pending
    decreases |pending|
  {
    if |pending| > ReadBufferSize {
      var rest := pending[ReadBufferSize..];
      ChunksShape(rest);
      ConcatPrepend(Data(pending[..ReadBufferSize]), Chunks(rest));
      assert pending == pending[..ReadBufferSize] + rest;
    } else if pending != [] {
      assert Chunks(pending)[..0] == [];
    }
  }

  lemma {:induction false} ConcatPrepend(r: ReadResult, rs: seq<ReadResult>)
    ensures Concat([r] + rs) == (match r case Data(b) => b case Failed(_) => []) + Concat(rs)
    decreases |rs|
  {
    if rs == [] {
      assert ([r] + rs)[..0] == [];
    } else {
      assert ([r] + rs)[..|rs|] == [r] + rs[..|rs| - 1];
      ConcatPrepend(r, rs[..|rs| - 1]);
    }
  }

  /** No lost wakeup: whatever bytes are pending when the event arrives, handed
      out in full 512-byte reads by `Chunks`, all of them reach standard output
      before the drain returns, and it returns 1 exactly when it stopped on a
      read that would block. For any other cutting of the bytes into reads,
      `NodeReadBuffer` writes `Concat` of the reads before the stop. */
  lemma NoLostWakeup(pending: seq<bv8>, stop: ReadResult)
    requires !Continues(stop)
    ensures ReadScript(Chunks(pending) + [stop])
    ensures Drained(Chunks(pending) + [stop]) == pending
    ensures DrainStatus(Chunks(pending) + [stop]) == 1 <==> stop == Failed(EAGAIN)
  {
    var script := Chunks(pending) + [stop];
    ChunksShape(pending);
    assert script[|Chunks(pending)|] == stop;
    assert forall i :: 0 <= i < |Chunks(pending)| ==> script[i] == Chunks(pending)[i];
    assert FirstStop(script) == |Chunks(pending)|;
    assert script[..FirstStop(script)] == Chunks(pending);
  }

  // ===========================================================================
  // server_poll_events: classifying one event
  // ===========================================================================

  /** What server_poll_events does with one event. */
  datatype Action = Close | AcceptAll | Drain

  /** An error or hangup flag, or a missing readable flag, closes the node;
      otherwise the listener's events accept and every other node's drain. */
  function Classify(flags: bv32, onListener: bool): (a: Action)
    ensures a == Close <==> flags & (EPOLLERR | EPOLLHUP | EPOLLIN) != EPOLLIN
    ensures a == AcceptAll <==> flags & (EPOLLERR | EPOLLHUP | EPOLLIN) == EPOLLIN && onListener
    ensures a == Drain <==> flags & (EPOLLERR | EPOLLHUP | EPOLLIN) == EPOLLIN && !onListener
  {
    if flags & EPOLLERR != 0 || flags & EPOLLHUP != 0 || flags & EPOLLIN == 0 then Close
    else if onListener then AcceptAll
    else Drain
  }

  /** One entry of the epoll batch: the node registered with the descriptor,
      and the event bits. */
  datatype Event = Event(node: Node, flags: bv32)

  /** The bytes a batch writes to standard output: the drained bytes of its
      Drain events, in the order of the events. */
  ghost function Forwarded(actions: seq<Action>, replies: seq<Replies>): seq<bv8>
    requires |actions| <= |replies|
    requires forall i :: 0 <= i < |actions| ==> ReadScript(replies[i].results)
    decreases |actions|
  {
    if actions == [] then []
    else
      var k := |actions| - 1;
      Forwarded(actions[..k], replies) + (if actions[k] == Drain then Drained(replies[k].results) else [])
  }

  /** Handling one more event extends the output by that event's drained bytes:
      if `out` held the bytes of `actions`, it then holds those of `actions + [a]`. */
  lemma ForwardedStep(start: seq<bv8>, out: seq<bv8>, out': seq<bv8>,
                      actions: seq<Action>, a: Action, replies: seq<Replies>)
    requires |actions| < |replies|
    requires forall i :: 0 <= i <= |actions| ==> ReadScript(replies[i].results)
    requires out == start + Forwarded(actions, replies)
    requires out' == if a == Drain then out + Drained(replies[|actions|].results) else out
    ensures out' == start + Forwarded(actions + [a], replies)
  {
    assert (actions + [a])[..|actions|] == actions;
  }

  /** What the kernel answers while one event is handled: the reads a drain
      makes, and the connections an accept loop finds. */
  datatype Replies = Replies(results: seq<ReadResult>, attempts: seq<Attempt>)

  // ===========================================================================
  // The accept loop's outcome
  // ===========================================================================

  /** An attempt that makes server_accept_connection return null, and so ends
      `while(server_accept_connection(server) != 0);`. */
  predicate EndsAccepting(a: Attempt) {
    a.Refused? || !(a.memOk && a.nonBlockOk && a.ctlOk)
  }

  /** The listening socket's backlog is finite: some attempt ends the loop. */
  predicate AcceptScript(attempts: seq<Attempt>) {
    exists i :: 0 <= i < |attempts| && EndsAccepting(attempts[i])
  }

  /** The descriptors the accept loop adds to a table with `room` free slots. */
  function Admitted(attempts: seq<Attempt>, room: nat): seq<int>
    decreases |attempts|
  {
    if room == 0 || attempts == [] || EndsAccepting(attempts[0]) then []
    else [attempts[0].fd] + Admitted(attempts[1..], room - 1)
  }

  /** The descriptor the accept loop closes again because its setup failed
      after it entered the table, if any. */
  function RolledBack(attempts: seq<Attempt>, room: nat): seq<int>
    decreases |attempts|
  {
    if room == 0 || attempts == [] then []
    else match attempts[0]
      case Refused => []
      case Incoming(fd, memOk, nonBlockOk, ctlOk) =>
        if !memOk then []
        else if !(nonBlockOk && ctlOk) then [fd]
        else RolledBack(attempts[1..], room - 1)
  }

  /** The accept loop never fills more than the free slots, so the table
      never grows past MAXNODES. */
  lemma {:induction false} AdmittedFitsRoom(attempts: seq<Attempt>, room: nat)
    ensures |Admitted(attempts, room)| <= room
    decreases |attempts|
  {
    if !(room == 0 || attempts == [] || EndsAccepting(attempts[0])) {
      AdmittedFitsRoom(attempts[1..], room - 1);
    }
  }

  /** With the table full, the accept loop admits nothing and closes nothing. */
  lemma FullTableAdmitsNothing(attempts: seq<Attempt>)
    ensures Admitted(attempts, 0) == [] && RolledBack(attempts, 0) == []
  {
  }

  /** The bookkeeping of the accept loop after `i` attempts, with `room` free
      slots left of the `room0` it started with: the table still begins with
      `base`, and what is yet to come completes the admitted descriptors and
      the rolled-back one of the whole script. */
  ghost predicate Accepting(attempts: seq<Attempt>, i: int, room: nat, room0: nat,
                            table: seq<Node>, base: seq<Node>)
  {
    0 <= i <= |attempts|
    && (forall j :: 0 <= j < i ==> !EndsAccepting(attempts[j]))
    && |base| <= |table| && table[..|base|] == base
    && FdsOf(table) + Admitted(attempts[i..], room) == FdsOf(base) + Admitted(attempts, room0)
    && RolledBack(attempts[i..], room) == RolledBack(attempts, room0)
  }

  /** A connection that enters the table and is set up moves the loop on by one attempt. */
  lemma AcceptStep(attempts: seq<Attempt>, i: int, room: nat, room0: nat,
                   before: seq<Node>, after: seq<Node>, base: seq<Node>, node: Node)
    requires Accepting(attempts, i, room, room0, before, base)
    requires i < |attempts| && room > 0 && !EndsAccepting(attempts[i])
    requires node.fd == attempts[i].fd && after == before + [node]
    ensures Accepting(attempts, i + 1, room - 1, room0, after, base)
  {
    assert attempts[i..][1..] == attempts[i + 1..];
    assert FdsOf(after) == FdsOf(before) + [node.fd];
    assert after[..|base|] == before[..|base|];
  }

  /** An attempt that ends the loop admits nothing more, and closes what the
      rest of the script would have closed. */
  lemma AcceptStop(attempts: seq<Attempt>, i: int, room: nat)
    requires 0 <= i < |attempts| && (room == 0 || EndsAccepting(attempts[i]))
    ensures Admitted(attempts[i..], room) == []
    ensures RolledBack([attempts[i]], room) == RolledBack(attempts[i..], room)
  {
  }

  /** A table that keeps `p` as its prefix and only appends nodes outside
      `known` holds the members of `p`, and of `known` no others. */
  lemma GrownMembers(t: seq<Node>, p: seq<Node>, known: set<Node>)
    requires |p| <= |t| && t[..|p|] == p
    requires forall j :: |p| <= j < |t| ==> t[j] !in known
    ensures forall x :: x in p ==> x in t
    ensures forall x :: x in t && x in known ==> x in p
  {
    forall x | x in t && x in known
      ensures x in p
    {
      var j :| 0 <= j < |t| && t[j] == x;
      assert p[j] == x;
    }
    forall x | x in p
      ensures x in t
    {
      var j :| 0 <= j < |p| && p[j] == x;
      assert t[j] == x;
    }
  }

  /** A table that keeps `p` as its prefix and whose descriptors extend those
      of `p` by `fds` appended exactly the nodes `t[|p|..]`, whose descriptors
      are `fds`. */
  lemma Appended(t: seq<Node>, p: seq<Node>, fds: seq<int>)
    requires |p| <= |t| && t[..|p|] == p
    requires FdsOf(t) == FdsOf(p) + fds
    ensures FdsOf(t[|p|..]) == fds
    ensures forall x :: x in t <==> x in p || x in t[|p|..]
  {
    assert t == p + t[|p|..];
    forall i | 0 <= i < |t| - |p|
      ensures FdsOf(t[|p|..])[i] == fds[i]
    {
      assert FdsOf(t)[|p| + i] == fds[i];
    }
  }

  // ===========================================================================
  // Removal by swapping with the last slot
  // ===========================================================================

  /** Slot `k` receives the last element and the sequence loses its last slot. */
  function SwapRemove<T>(t: seq<T>, k: nat): (r: seq<T>)
    requires k < |t|
    ensures |r| == |t| - 1
  {
    t[k := t[|t| - 1]][..|t| - 1]
  }

  /** Removing slot `k` moves the last element into it, keeps every other
      slot, and takes exactly one occurrence of `t[k]` out of the collection. */
  lemma SwapRemoveEffect<T>(t: seq<T>, k: nat)
    requires k < |t|
    ensures k < |t| - 1 ==> SwapRemove(t, k)[k] == t[|t| - 1]
    ensures forall i :: 0 <= i < |t| - 1 && i != k ==> SwapRemove(t, k)[i] == t[i]
    ensures k == |t| - 1 ==> SwapRemove(t, k) == t[..k]
    ensures multiset(SwapRemove(t, k)) == multiset(t) - multiset{t[k]}
  {
    var last := |t| - 1;
    if k < last {
      assert t == t[..k] + [t[k]] + t[k + 1..last] + [t[last]];
      assert SwapRemove(t, k) == t[..k] + [t[last]] + t[k + 1..last];
    } else {
      assert t == t[..k] + [t[k]];
    }
  }

  /** Adding at the end and removing that last slot gives back the table:
      the rollback in server_add_node is exact. */
  lemma AppendThenRemoveLast<T>(t: seq<T>, x: T)
    ensures SwapRemove(t + [x], |t|) == t
  {
  }

  /** In a table without duplicates, removing slot `k` takes out exactly `t[k]`. */
  lemma SwapRemoveMembers<T>(t: seq<T>, k: nat, x: T)
    requires k < |t|
    requires forall i, j :: 0 <= i < j < |t| ==> t[i] != t[j]
    ensures x in SwapRemove(t, k) <==> x in t && x != t[k]
  {
    SwapRemoveEffect(t, k);
    assert x in SwapRemove(t, k) <==> x in multiset(SwapRemove(t, k));
    if x in t && x != t[k] {
      assert x in multiset(t);
    }
    if x == t[k] {
      assert multiset(t)[x] == 1 by {
        DistinctCount(t, x);
      }
    }
  }

  lemma {:induction false} DistinctCount<T>(t: seq<T>, x: T)
    requires forall i, j :: 0 <= i < j < |t| ==> t[i] != t[j]
    ensures multiset(t)[x] <= 1
    decreases |t|
  {
    if t != [] {
      var init := t[..|t| - 1];
      assert t == init + [t[|t| - 1]];
      DistinctCount(init, x);
      if x == t[|t| - 1] {
        forall i | 0 <= i < |init|
          ensures init[i] != x
        {
          assert t[i] != t[|t| - 1];
        }
      }
    }
  }

  /** The descriptors of the table's nodes, slot by slot. */
  function FdsOf(t: seq<Node?>): (fds: seq<int>)
    ensures |fds| == |t|
  {
    seq(|t|, i requires 0 <= i < |t| => if t[i] == null then -1 else t[i].fd)
  }

  function Reversed(s: seq<int>): (r: seq<int>)
    ensures |r| == |s|
    decreases |s|
  {
    if s == [] then [] else Reversed(s[1..]) + [s[0]]
  }

  // ===========================================================================
  // The dispatch loop's bookkeeping
  // ===========================================================================

  /** The descriptors handling one event closes: the node's own when the event
      removes it, the connection an accept loop that found `room` free slots
      rolls back, nothing when a drain keeps the node. */
  function ShutBy(a: Action, ev: Event, replies: Replies, room: nat): seq<int>
    requires ReadScript(replies.results)
  {
    if a == AcceptAll then RolledBack(replies.attempts, room)
    else if Keeps(a, replies.results) then []
    else [ev.node.fd]
  }

  /** The concatenation of `parts`, in order. */
  function Flatten<T>(parts: seq<seq<T>>): seq<T>
    decreases |parts|
  {
    if parts == [] then [] else Flatten(parts[..|parts| - 1]) + parts[|parts| - 1]
  }

  /** Appending one more part to `shut` appends it to the flattened log. */
  lemma FlattenStep<T>(start: seq<T>, closed: seq<T>, closed': seq<T>, shut: seq<seq<T>>, closes: seq<T>)
    requires closed == start + Flatten(shut)
    requires closed' == closed + closes
    ensures closed' == start + Flatten(shut + [closes])
  {
    assert (shut + [closes])[..|shut|] == shut;
  }

  /** What the dispatch loop tracks of the server: the table, the nodes
      allocated so far, and the output and closed-descriptor logs. */
  datatype Snapshot = Snapshot(table: seq<Node>, known: set<Node>, out: seq<bv8>, closed: seq<int>)

  /** The nodes the first `n` events of a batch name, in order. */
  function Named(events: seq<Event>, n: int): (nodes: seq<Node>)
    requires 0 <= n <= |events|
    ensures |nodes| == n
  {
    seq(n, j requires 0 <= j < n => events[j].node)
  }

  /** A batch of `n` events as epoll_wait reports it: the kernel's answers
      for each are well formed, and no node is named twice. */
  ghost predicate Batch(events: seq<Event>, replies: seq<Replies>, n: int) {
    0 <= n <= |events| == |replies|
    && (forall j :: 0 <= j < n ==> ReadScript(replies[j].results))
    && (forall j, k :: 0 <= j < k < n ==> Named(events, n)[j] != Named(events, n)[k])
  }

  /** The table after the first `|actions|` events of a batch that began in
      state `start`: the nodes of the events still to come are in it; a handled
      event's node is in it exactly when its action kept it; every node of
      `start` that no handled event names is still there, and no node
      allocated before the batch has entered. `known` holds every node the
      batch names. */
  ghost predicate Kept(events: seq<Event>, replies: seq<Replies>, actions: seq<Action>, n: int,
                       start: Snapshot, now: Snapshot)
    requires Batch(events, replies, n) && |actions| <= n
  {
    start.known <= now.known
    && (forall j :: 0 <= j < n ==> events[j].node in now.known)
    && (forall j :: |actions| <= j < n ==> events[j].node in now.table)
    && (forall j :: 0 <= j < |actions| ==> (events[j].node in now.table <==> Keeps(actions[j], replies[j].results)))
    && (forall x {:trigger x in start.table} ::
          x in start.table && (forall j :: 0 <= j < |actions| ==> events[j].node != x) ==> x in now.table)
    && (forall x {:trigger x in now.table} :: x in now.table && x in start.known ==> x in start.table)
  }

  /** Before its first event a batch has handled nothing. */
  lemma DispatchBegin(events: seq<Event>, replies: seq<Replies>, n: int, listener: int, start: Snapshot)
    requires Batch(events, replies, n)
    requires forall j :: 0 <= j < n ==> events[j].node in start.table
    requires forall x :: x in start.table ==> x in start.known
    ensures Dispatched(events, replies, [], [], [], [|start.table|], [], n, listener, start, start)
  {
    assert Flatten<int>([]) == [] && Flatten<Node>([]) == [];
  }

  /** The records of the first `|actions|` events of a batch: each action is
      its event's classification, `shut[j]` holds the descriptors event `j`
      closed with `rooms[j]` free slots in the table, and since `start` the
      output grew by the forwarded bytes and the closed log by `shut`. */
  ghost predicate Logged(events: seq<Event>, replies: seq<Replies>, actions: seq<Action>,
                         rooms: seq<nat>, shut: seq<seq<int>>, n: int, listener: int,
                         start: Snapshot, now: Snapshot)
    requires Batch(events, replies, n) && |actions| == |rooms| == |shut| <= n
  {
    (forall j :: 0 <= j < |actions| ==>
       actions[j] == Classify(events[j].flags, events[j].node.fd == listener))
    && (forall j :: 0 <= j < |rooms| ==> rooms[j] <= MaxNodes)
    && (forall j :: 0 <= j < |actions| ==> shut[j] == ShutBy(actions[j], events[j], replies[j], rooms[j]))
    && now.out == start.out + Forwarded(actions, replies)
    && now.closed == start.closed + Flatten(shut)
  }

  /** The nodes in the table `now` that did not exist when the batch began
      in `start` are exactly the arrivals. */
  ghost predicate Arrived(arrivals: seq<seq<Node>>, start: Snapshot, now: Snapshot) {
    (forall x {:trigger x in now.table} :: x in now.table && x !in start.known ==> x in Flatten(arrivals))
    && (forall x {:trigger x in Flatten(arrivals)} :: x in Flatten(arrivals) ==> x in now.table && x !in start.known)
  }

  /** An event that drops at most its own, older node and adds the new nodes
      `arrived` keeps `Arrived`. */
  lemma ArrivedStep(arrivals: seq<seq<Node>>, arrived: seq<Node>, node: Node, keep: bool,
                    start: Snapshot, now: Snapshot, next: Snapshot)
    requires Arrived(arrivals, start, now)
    requires start.known <= now.known && node in start.known
    requires forall x :: x in arrived ==> x !in now.known
    requires forall x :: x in next.table <==> (x in now.table && (x != node || keep)) || x in arrived
    ensures Arrived(arrivals + [arrived], start, next)
  {
    assert (arrivals + [arrived])[..|arrivals|] == arrivals;
    assert Flatten(arrivals + [arrived]) == Flatten(arrivals) + arrived;
  }

  /** The sizes of the table along a batch: `sizes[j]` nodes before event
      `j`, which found `rooms[j]` free slots, added the nodes `arrivals[j]`,
      whose descriptors are what its accept loop admitted when it was an
      accept, and dropped its own node unless its action kept it. */
  ghost predicate Sized(replies: seq<Replies>, actions: seq<Action>, rooms: seq<nat>, sizes: seq<int>,
                        arrivals: seq<seq<Node>>)
    requires |actions| == |rooms| == |arrivals| <= |replies| && |sizes| == |actions| + 1
    requires forall j :: 0 <= j < |actions| ==> ReadScript(replies[j].results)
  {
    (forall j :: 0 <= j < |actions| ==> rooms[j] == MaxNodes - sizes[j])
    && (forall j {:trigger arrivals[j]} :: 0 <= j < |actions| ==>
          sizes[j + 1] == sizes[j] + |arrivals[j]| - (if Keeps(actions[j], replies[j].results) then 0 else 1))
    && (forall j :: 0 <= j < |actions| ==>
          FdsOf(arrivals[j]) == if actions[j] == AcceptAll then Admitted(replies[j].attempts, rooms[j]) else [])
  }

  /** One more event keeps `Sized`. */
  lemma SizedStep(replies: seq<Replies>, actions: seq<Action>, rooms: seq<nat>, sizes: seq<int>,
                  arrivals: seq<seq<Node>>, a: Action, room: nat, arrived: seq<Node>, size: int)
    requires |actions| == |rooms| == |arrivals| < |replies| && |sizes| == |actions| + 1
    requires forall j :: 0 <= j <= |actions| ==> ReadScript(replies[j].results)
    requires Sized(replies, actions, rooms, sizes, arrivals)
    requires room == MaxNodes - sizes[|actions|]
    requires FdsOf(arrived) == if a == AcceptAll then Admitted(replies[|actions|].attempts, room) else []
    requires size == sizes[|actions|] + |arrived| - (if Keeps(a, replies[|actions|].results) then 0 else 1)
    ensures Sized(replies, actions + [a], rooms + [room], sizes + [size], arrivals + [arrived])
  {
    var i := |actions|;
    forall j | 0 <= j < i + 1
      ensures (rooms + [room])[j] == MaxNodes - (sizes + [size])[j]
      ensures (sizes + [size])[j + 1] == (sizes + [size])[j] + |(arrivals + [arrived])[j]|
                - (if Keeps((actions + [a])[j], replies[j].results) then 0 else 1)
      ensures FdsOf((arrivals + [arrived])[j]) == if (actions + [a])[j] == AcceptAll
                then Admitted(replies[j].attempts, (rooms + [room])[j]) else []
    {
      if j < i {
        assert (actions + [a])[j] == actions[j];
      }
    }
  }

  /** How the table grew over the first `|actions|` events of a batch that
      began in state `start`: it went through the sizes `sizes`, and the
      nodes in it that did not exist before the batch are exactly the
      arrivals. */
  ghost predicate Joined(events: seq<Event>, replies: seq<Replies>, actions: seq<Action>, rooms: seq<nat>,
                         sizes: seq<int>, arrivals: seq<seq<Node>>, n: int, start: Snapshot, now: Snapshot)
    requires Batch(events, replies, n) && |actions| == |rooms| == |arrivals| < |sizes| == |actions| + 1
    requires |actions| <= n
  {
    (forall j :: 0 <= j < n ==> events[j].node in start.known)
    && sizes[0] == |start.table| && sizes[|actions|] == |now.table|
    && Sized(replies, actions, rooms, sizes, arrivals)
    && Arrived(arrivals, start, now)
  }

  /** Handling the next event of a batch, with `room` free slots and `arrived`
      the nodes it added, keeps `Joined`. */
  lemma JoinedStep(events: seq<Event>, replies: seq<Replies>, actions: seq<Action>, rooms: seq<nat>,
                   sizes: seq<int>, arrivals: seq<seq<Node>>, a: Action, room: nat, arrived: seq<Node>,
                   n: int, start: Snapshot, now: Snapshot, next: Snapshot)
    requires Batch(events, replies, n) && |actions| == |rooms| == |arrivals| < |sizes| == |actions| + 1
    requires |actions| < n
    requires Joined(events, replies, actions, rooms, sizes, arrivals, n, start, now)
    requires start.known <= now.known
    requires room == MaxNodes - |now.table|
    requires FdsOf(arrived) == if a == AcceptAll then Admitted(replies[|actions|].attempts, room) else []
    requires forall x :: x in arrived ==> x !in now.known
    requires forall x :: x in next.table <==>
               (x in now.table && (x != events[|actions|].node || Keeps(a, replies[|actions|].results))) || x in arrived
    requires |next.table| == |now.table| + |arrived| - (if Keeps(a, replies[|actions|].results) then 0 else 1)
    ensures Joined(events, replies, actions + [a], rooms + [room], sizes + [|next.table|], arrivals + [arrived],
                   n, start, next)
  {
    var i := |actions|;
    ArrivedStep(arrivals, arrived, events[i].node, Keeps(a, replies[i].results), start, now, next);
    SizedStep(replies, actions, rooms, sizes, arrivals, a, room, arrived, |next.table|);
  }

  /** The state `now` of the dispatch loop after handling `actions`, the first
      events of a batch of `n` that began in state `start`. */
  ghost predicate Dispatched(events: seq<Event>, replies: seq<Replies>, actions: seq<Action>,
                             rooms: seq<nat>, shut: seq<seq<int>>, sizes: seq<int>, arrivals: seq<seq<Node>>,
                             n: int, listener: int, start: Snapshot, now: Snapshot)
  {
    Batch(events, replies, n) && |actions| == |rooms| == |shut| == |arrivals| <= n && |sizes| == |actions| + 1
    && Kept(events, replies, actions, n, start, now)
    && Logged(events, replies, actions, rooms, shut, n, listener, start, now)
    && Joined(events, replies, actions, rooms, sizes, arrivals, n, start, now)
  }

  /** Handling the next event of a batch keeps `Kept`: its node leaves the
      table unless its action keeps it, and no other node of the batch's
      first table leaves or old node enters. */
  lemma KeptStep(events: seq<Event>, replies: seq<Replies>, actions: seq<Action>, a: Action, n: int,
                 start: Snapshot, now: Snapshot, next: Snapshot)
    requires Batch(events, replies, n) && |actions| < n
    requires Kept(events, replies, actions, n, start, now)
    requires now.known <= next.known
    requires forall x :: x in now.table ==>
               (x in next.table <==> x != events[|actions|].node || Keeps(a, replies[|actions|].results))
    requires forall x :: x in next.table && x in now.known ==> x in now.table
    ensures Kept(events, replies, actions + [a], n, start, next)
  {
    var i := |actions|;
    forall j | 0 <= j <= i
      ensures events[j].node in next.table <==> Keeps((actions + [a])[j], replies[j].results)
    {
      if j < i {
        assert (actions + [a])[j] == actions[j];
        assert Named(events, n)[j] != Named(events, n)[i];
      }
    }
    forall j | i < j < n
      ensures events[j].node in next.table
    {
      assert Named(events, n)[i] != Named(events, n)[j];
    }
    forall x | x in start.table && (forall j :: 0 <= j < i + 1 ==> events[j].node != x)
      ensures x in next.table
    {
      assert events[i].node != x;
    }
  }

  /** Handling the next event of a batch, with `room` free slots, keeps
      `Logged`: its action, its closed descriptors and its drained bytes are
      appended. */
  lemma LoggedStep(events: seq<Event>, replies: seq<Replies>, actions: seq<Action>, rooms: seq<nat>,
                   shut: seq<seq<int>>, a: Action, room: nat, n: int, listener: int,
                   start: Snapshot, now: Snapshot, next: Snapshot)
    requires Batch(events, replies, n) && |actions| == |rooms| == |shut| < n && room <= MaxNodes
    requires Logged(events, replies, actions, rooms, shut, n, listener, start, now)
    requires a == Classify(events[|actions|].flags, events[|actions|].node.fd == listener)
    requires next.out == if a == Drain then now.out + Drained(replies[|actions|].results) else now.out
    requires next.closed == now.closed + ShutBy(a, events[|actions|], replies[|actions|], room)
    ensures Logged(events, replies, actions + [a], rooms + [room],
                   shut + [ShutBy(a, events[|actions|], replies[|actions|], room)], n, listener, start, next)
  {
    var i := |actions|;
    var closes := ShutBy(a, events[i], replies[i], room);
    ForwardedStep(start.out, now.out, next.out, actions, a, replies);
    FlattenStep(start.closed, now.closed, next.closed, shut, closes);
    forall j | 0 <= j < i + 1
      ensures (actions + [a])[j] == Classify(events[j].flags, events[j].node.fd == listener)
      ensures (rooms + [room])[j] <= MaxNodes
      ensures (shut + [closes])[j] == ShutBy((actions + [a])[j], events[j], replies[j], (rooms + [room])[j])
    {
      if j < i {
        assert (actions + [a])[j] == actions[j];
      }
    }
  }

  /** Handling the next event of the batch, with `room` free slots, keeps `Dispatched`. */
  lemma DispatchStep(events: seq<Event>, replies: seq<Replies>, actions: seq<Action>, rooms: seq<nat>,
                     shut: seq<seq<int>>, sizes: seq<int>, arrivals: seq<seq<Node>>,
                     a: Action, room: nat, arrived: seq<Node>, n: int, listener: int,
                     start: Snapshot, now: Snapshot, next: Snapshot)
    requires |actions| < n && room == MaxNodes - |now.table|
    requires Dispatched(events, replies, actions, rooms, shut, sizes, arrivals, n, listener, start, now)
    requires a == Classify(events[|actions|].flags, events[|actions|].node.fd == listener)
    requires now.known <= next.known
    requires forall x :: x in now.table ==>
               (x in next.table <==> x != events[|actions|].node || Keeps(a, replies[|actions|].results))
    requires forall x :: x in next.table && x in now.known ==> x in now.table
    requires next.out == if a == Drain then now.out + Drained(replies[|actions|].results) else now.out
    requires next.closed == now.closed + ShutBy(a, events[|actions|], replies[|actions|], room)
    requires FdsOf(arrived) == if a == AcceptAll then Admitted(replies[|actions|].attempts, room) else []
    requires forall x :: x in arrived ==> x !in now.known
    requires forall x :: x in next.table <==>
               (x in now.table && (x != events[|actions|].node || Keeps(a, replies[|actions|].results))) || x in arrived
    requires |next.table| == |now.table| + |arrived| - (if Keeps(a, replies[|actions|].results) then 0 else 1)
    ensures Dispatched(events, replies, actions + [a], rooms + [room],
                       shut + [ShutBy(a, events[|actions|], replies[|actions|], room)],
                       sizes + [|next.table|], arrivals + [arrived], n, listener, start, next)
  {
    KeptStep(events, replies, actions, a, n, start, now, next);
    LoggedStep(events, replies, actions, rooms, shut, a, room, n, listener, start, now, next);
    JoinedStep(events, replies, actions, rooms, sizes, arrivals, a, room, arrived, n, start, now, next);
  }

  /** What a finished batch leaves, read off `Dispatched`. */
  lemma DispatchDone(events: seq<Event>, replies: seq<Replies>, actions: seq<Action>,
                     rooms: seq<nat>, shut: seq<seq<int>>, sizes: seq<int>, arrivals: seq<seq<Node>>,
                     n: int, listener: int, start: Snapshot, now: Snapshot)
    requires Dispatched(events, replies, actions, rooms, shut, sizes, arrivals, n, listener, start, now)
    requires |actions| == n
    ensures forall i :: 0 <= i < |actions| ==>
              (events[i].node in now.table <==> Keeps(actions[i], replies[i].results))
    ensures forall x :: x in start.table && (forall i :: 0 <= i < |actions| ==> events[i].node != x) ==>
              x in now.table
    ensures forall x :: x in now.table && x in start.known ==> x in start.table
    ensures now.out == start.out + Forwarded(actions, replies)
    ensures forall i :: 0 <= i < |actions| ==>
              rooms[i] <= MaxNodes && shut[i] == ShutBy(actions[i], events[i], replies[i], rooms[i])
    ensures now.closed == start.closed + Flatten(shut)
    ensures |sizes| == |actions| + 1 && sizes[0] == |start.table| && sizes[|actions|] == |now.table|
    ensures Sized(replies, actions, rooms, sizes, arrivals)
    ensures forall x :: x in now.table && x !in start.known ==> x in Flatten(arrivals)
    ensures forall x :: x in Flatten(arrivals) ==> x in now.table && x !in start.known
  {
  }

  // ===========================================================================
  // The server record
  // ===========================================================================

  /** `struct node_t`: the slot the node occupies, and its descriptor. */
  class Node {
    var id: int
    const fd: int

    constructor (id: int, fd: int)
      ensures this.id == id && this.fd == fd
    {
      this.id := id;
      this.fd := fd;
    }
  }

  /** `struct server_t`. `closed` and `out` are not fields of the C record: they
      record the descriptors passed to close(2) and the bytes written to
      standard output, in order. */
  class Server {
    var verbose: int
    var port: int
    var address: string
    var sfd: int
    var efd: int
    var count: nat
    var master: Node?
    const nodes: array<Node?>

    ghost var closed: seq<int>
    ghost var out: seq<bv8>

    /** Every node the server has allocated: the objects whose ids a removal
        may rewrite. */
    ghost var Repr: set<Node>

    /** The table invariant: the first `count` slots hold nodes, and the node in
        slot `i` has `id == i`. */
    ghost predicate Valid()
      reads this, nodes, Repr
    {
      nodes.Length == MaxNodes && count <= MaxNodes
      && forall i :: 0 <= i < count ==> nodes[i] != null && nodes[i] in Repr && nodes[i].id == i
    }

    /** The live nodes, slot by slot. */
    ghost function Table(): seq<Node>
      reads this, nodes, Repr
      requires Valid()
    {
      nodes[..count]
    }

    /** The dense ids make the table free of duplicates. */
    lemma TableDistinct()
      requires Valid()
      ensures forall i, j :: 0 <= i < j < |Table()| ==> Table()[i] != Table()[j]
    {
      forall i, j | 0 <= i < j < |Table()|
        ensures Table()[i] != Table()[j]
      {
        assert Table()[i].id == i && Table()[j].id == j;
      }
    }

    /** A node of the table sits in the slot its id names. */
    lemma InTableAtId(n: Node)
      requires Valid() && n in Table()
      ensures 0 <= n.id < count && nodes[n.id] == n
    {
      var i :| 0 <= i < count && nodes[i] == n;
    }

    /** Every node of the table is in the footprint. */
    lemma TableKnown()
      requires Valid()
      ensures forall x :: x in Table() ==> x in Repr
    {
      forall x | x in Table()
        ensures x in Repr
      {
        InTableAtId(x);
      }
    }

    /** server_init's defaults (parse_options is ParseOptions). */
    constructor ()
      ensures Valid() && Table() == [] && fresh(nodes) && Repr == {}
      ensures verbose == 0 && port == DefaultPort && address == DefaultAddress && master == null
      ensures closed == [] && out == []
    {
      verbose := 0;
      port := DefaultPort;
      master := null;
      count := 0;
      address := DefaultAddress;
      nodes := new Node?[MaxNodes];
      closed := [];
      out := [];
      Repr := {};
    }

    /** parse_options over the options getopt_long delivers, in order. */
    method ParseOptions(opts: seq<Opt>) returns (status: int)
      modifies this`verbose, this`port, this`address
      ensures Settings(status, verbose, port, address)
              == Parsed(opts, Settings(0, old(verbose), old(port), old(address)))
    {
      ghost var start := Settings(0, verbose, port, address);
      status := 0;
      var i := 0;
      while i < |opts|
        invariant 0 <= i <= |opts|
        invariant Settings(status, verbose, port, address) == Parsed(opts[..i], start)
      {
        assert opts[..i + 1][..i] == opts[..i];
        match opts[i] {
          case Help =>
            status := -1;
          case Verbose =>
            verbose := verbose + 1;
          case Address(arg) =>
            var r := Options.SetAddress(address, arg);
            status, address := r.status, r.value;
          case Port(p) =>
            var r := Options.SetPort(port, p);
            status, port := r.status, r.value;
          case Unrecognised =>
            status := status + 1;
        }
        i := i + 1;
      }
      assert opts[..i] == opts;
    }

    /** server_remove_node: the last node moves into the removed node's slot and
        takes its id; the removed node's descriptor is closed. */
    method RemoveNode(node: Node)
      requires Valid()
      requires 0 <= node.id < count && nodes[node.id] == node
      modifies this`count, this`closed, nodes, nodes[count - 1]
      ensures Valid()
      ensures Table() == SwapRemove(old(Table()), old(node.id))
      ensures closed == old(closed) + [node.fd]
      ensures nodes[..] == old(nodes[..])[old(node.id) := old(nodes[count - 1])]
      ensures forall x: Node :: x in Table() <==> x in old(Table()) && x != node
    {
      TableDistinct();
      ghost var t, k := Table(), node.id;
      count := count - 1;
      nodes[node.id] := nodes[count];
      nodes[node.id].id := node.id;
      closed := closed + [node.fd];
      assert forall i :: 0 <= i < count && i != node.id ==> nodes[i] == old(nodes[i]) && old(nodes[i].id) == i;
      forall x: Node {
        SwapRemoveMembers(t, k, x);
      }
    }

    /** server_add_node: the new node enters at slot `count` with that id; when
        the descriptor cannot be made non-blocking or registered with epoll, the
        node is removed again and the table is as it was. */
    method AddNode(fd: int, memOk: bool, nonBlockOk: bool, ctlOk: bool) returns (node: Node?)
      requires Valid() && count < MaxNodes
      modifies this`count, this`closed, this`Repr, nodes
      ensures Valid()
      ensures node != null <==> memOk && nonBlockOk && ctlOk
      ensures node != null ==>
                fresh(node) && node.fd == fd && node.id == old(count)
                && Table() == old(Table()) + [node]
      ensures node == null ==> Table() == old(Table())
      ensures closed == if memOk && !(nonBlockOk && ctlOk) then old(closed) + [fd] else old(closed)
      ensures old(Repr) <= Repr && fresh(Repr - old(Repr))
    {
      if !memOk {
        return null;
      }
      node := new Node(count, fd);
      Repr := Repr + {node};
      nodes[count] := node;
      count := count + 1;
      assert Table() == old(Table()) + [node];
      if !nonBlockOk {
        RemoveNode(node);
        AppendThenRemoveLast(old(Table()), node);
        return null;
      }
      if !ctlOk {
        RemoveNode(node);
        AppendThenRemoveLast(old(Table()), node);
        return null;
      }
    }

    /** server_accept_connection: refuses without calling accept when the
        table is full; otherwise accepts one connection and adds it. */
    method AcceptConnection(a: Attempt) returns (node: Node?)
      requires Valid()
      modifies this`count, this`closed, this`Repr, nodes
      ensures Valid()
      ensures node != null <==> old(count) < MaxNodes && !EndsAccepting(a)
      ensures node != null ==>
                fresh(node) && node.fd == a.fd && Table() == old(Table()) + [node]
      ensures node == null ==> Table() == old(Table())
      ensures closed == old(closed) + RolledBack([a], MaxNodes - old(count))
      ensures old(Repr) <= Repr && fresh(Repr - old(Repr))
    {
      if count == MaxNodes {
        return null;
      }
      match a
      case Refused =>
        node := null;
      case Incoming(fd, memOk, nonBlockOk, ctlOk) =>
        node := AddNode(fd, memOk, nonBlockOk, ctlOk);
    }

    /** `while(server_accept_connection(server) != 0);` on a listener event:
        accepts until an attempt fails or the table is full. */
    method AcceptPending(attempts: seq<Attempt>) returns (ghost arrived: seq<Node>)
      requires Valid() && AcceptScript(attempts)
      modifies this`count, this`closed, this`Repr, nodes
      ensures Valid() && old(count) <= count
      ensures Table()[..old(count)] == old(Table())
      ensures FdsOf(Table()) == FdsOf(old(Table())) + Admitted(attempts, MaxNodes - old(count))
      ensures forall j :: old(count) <= j < count ==> fresh(Table()[j])
      ensures closed == old(closed) + RolledBack(attempts, MaxNodes - old(count))
      ensures old(Repr) <= Repr && fresh(Repr - old(Repr))
      ensures forall x: Node :: x in old(Table()) ==> x in Table()
      ensures forall x: Node :: x in Table() && x in old(Repr) ==> x in old(Table())
      ensures Table() == old(Table()) + arrived && count == old(count) + |arrived|
      ensures FdsOf(arrived) == Admitted(attempts, MaxNodes - old(count))
      ensures forall x: Node :: x in arrived ==> x !in old(Repr)
    {
      ghost var room0 := MaxNodes - count;
      var i := 0;
      while true
        invariant Valid() && old(count) <= count
        invariant Accepting(attempts, i, MaxNodes - count, room0, Table(), old(Table()))
        invariant forall j :: old(count) <= j < count ==> fresh(Table()[j]) && Table()[j] !in old(Repr)
        invariant closed == old(closed)
        invariant old(Repr) <= Repr && fresh(Repr - old(Repr))
        decreases |attempts| - i
      {
        assert i < |attempts| by {
          var k :| 0 <= k < |attempts| && EndsAccepting(attempts[k]);
        }
        ghost var before, room := Table(), MaxNodes - count;
        var node := AcceptConnection(attempts[i]);
        if node == null {
          AcceptStop(attempts, i, room);
          break;
        }
        AcceptStep(attempts, i, room, room0, before, Table(), old(Table()), node);
        i := i + 1;
      }
      GrownMembers(Table(), old(Table()), old(Repr));
      arrived := Table()[old(count)..];
      Appended(Table(), old(Table()), Admitted(attempts, room0));
    }

    /** server_destroy: removes the last node until the table is empty. */
    method Destroy()
      requires Valid()
      modifies this`count, this`closed, nodes, Repr
      ensures Valid() && Table() == []
      ensures closed == old(closed) + Reversed(FdsOf(old(Table())))
    {
      ghost var fds := FdsOf(Table());
      while count > 0
        invariant Valid() && count <= old(count)
        invariant forall j :: 0 <= j < count ==> nodes[j] == old(nodes[j])
        invariant closed == old(closed) + Reversed(fds[count..])
      {
        ghost var c := count;
        RemoveNode(nodes[count - 1]);
        assert fds[c - 1..][1..] == fds[c..];
      }
    }

    /** server_start: bind the listening socket, create the epoll instance, add
        the listener as the first node, allocate the event buffer. The outcome
        of create_and_bind and epoll_create1 is the descriptor they return
        (-1 on failure). */
    method Start(boundFd: int, epollFd: int, memOk: bool, nonBlockOk: bool, ctlOk: bool, eventsOk: bool)
      returns (status: int)
      requires Valid() && count == 0
      modifies this`sfd, this`efd, this`master, this`count, this`closed, this`Repr, nodes
      ensures Valid()
      ensures status == 0 || status == -1
      ensures status == 0 <==> boundFd != -1 && epollFd != -1 && memOk && nonBlockOk && ctlOk && eventsOk
      ensures sfd == boundFd && efd == (if boundFd == -1 then old(efd) else epollFd)
      ensures boundFd == -1 || epollFd == -1 ==> master == old(master)
      ensures boundFd != -1 && epollFd != -1 && !(memOk && nonBlockOk && ctlOk) ==> master == null
      ensures var listening := boundFd != -1 && epollFd != -1 && memOk && nonBlockOk && ctlOk;
              Table() == (if listening then [master] else [])
              && (listening ==> master != null && master.fd == boundFd && master.id == 0)
      ensures closed == if boundFd != -1 && epollFd != -1 && memOk && !(nonBlockOk && ctlOk)
                        then old(closed) + [boundFd] else old(closed)
      ensures old(Repr) <= Repr && fresh(Repr - old(Repr))
    {
      sfd := boundFd;
      if sfd == -1 {
        return -1;
      }
      efd := epollFd;
      if efd == -1 {
        return -1;
      }
      master := AddNode(sfd, memOk, nonBlockOk, ctlOk);
      if master == null {
        return -1;
      }
      if !eventsOk {
        return -1;
      }
      return 0;
    }

    /** One pass of server_poll_events' loop: a node with an error or hangup, or
        not readable, is removed; the listener's event accepts every pending
        connection; any other node is drained and removed when the drain
        returns -1. */
    method HandleEvent(ev: Event, replies: Replies) returns (a: Action, ghost arrived: seq<Node>)
      requires Valid() && master != null && ev.node in Table()
      requires ReadScript(replies.results) && AcceptScript(replies.attempts)
      modifies this`count, this`closed, this`out, this`Repr, nodes, Repr
      ensures Valid()
      ensures a == Classify(ev.flags, ev.node.fd == master.fd)
      ensures var removed := a == Close || (a == Drain && DrainStatus(replies.results) == -1);
              (removed ==> Table() == SwapRemove(old(Table()), old(ev.node.id)))
              && (a == Drain && !removed ==> Table() == old(Table()))
      ensures a == AcceptAll ==>
                old(count) <= count && Table()[..old(count)] == old(Table())
                && FdsOf(Table()) == FdsOf(old(Table())) + Admitted(replies.attempts, MaxNodes - old(count))
                && (forall j :: old(count) <= j < count ==> fresh(Table()[j]))
      ensures closed == old(closed) + ShutBy(a, ev, replies, MaxNodes - old(count))
      ensures out == if a == Drain then old(out) + Drained(replies.results) else old(out)
      ensures old(Repr) <= Repr && fresh(Repr - old(Repr))
      ensures forall x: Node :: x in old(Table()) ==>
                (x in Table() <==> x != ev.node || Keeps(a, replies.results))
      ensures forall x: Node :: x in Table() && x in old(Repr) ==> x in old(Table())
      ensures FdsOf(arrived) == if a == AcceptAll then Admitted(replies.attempts, MaxNodes - old(count)) else []
      ensures forall x: Node :: x in arrived ==> x !in old(Repr)
      ensures forall x: Node :: x in Table() <==>
                (x in old(Table()) && (x != ev.node || Keeps(a, replies.results))) || x in arrived
      ensures count == old(count) + |arrived| - (if Keeps(a, replies.results) then 0 else 1)
    {
      var node := ev.node;
      InTableAtId(node);
      a := Classify(ev.flags, node.fd == master.fd);
      arrived := [];
      if ev.flags & EPOLLERR != 0 || ev.flags & EPOLLHUP != 0 || ev.flags & EPOLLIN == 0 {
        RemoveNode(node);
      } else if master.fd == node.fd {
        arrived := AcceptPending(replies.attempts);
      } else {
        var alive, written, _ := NodeReadBuffer(replies.results);
        out := out + written;
        if alive == -1 {
          RemoveNode(node);
        }
      }
    }

    /** One pass of server_poll_events's loop: handle event `i` of the batch
        and account for it in the loop's bookkeeping. */
    method DispatchNext(events: seq<Event>, replies: seq<Replies>, i: nat, n: int, listener: int,
                        ghost actions: seq<Action>, ghost rooms: seq<nat>, ghost shut: seq<seq<int>>,
                        ghost sizes: seq<int>, ghost arrivals: seq<seq<Node>>, ghost start: Snapshot)
      returns (ghost actions': seq<Action>, ghost rooms': seq<nat>, ghost shut': seq<seq<int>>,
               ghost sizes': seq<int>, ghost arrivals': seq<seq<Node>>)
      requires Valid() && master != null && listener == master.fd
      requires i == |actions| < n
      requires Dispatched(events, replies, actions, rooms, shut, sizes, arrivals, n, listener, start,
                          Snapshot(Table(), Repr, out, closed))
      requires AcceptScript(replies[i].attempts)
      modifies this`count, this`closed, this`out, this`Repr, nodes, Repr
      ensures Valid() && master == old(master)
      ensures old(Repr) <= Repr && fresh(Repr - old(Repr))
      ensures |actions'| == |rooms'| == |shut'| == |arrivals'| == i + 1 && |sizes'| == i + 2
      ensures Dispatched(events, replies, actions', rooms', shut', sizes', arrivals',
                         n, listener, start, Snapshot(Table(), Repr, out, closed))
    {
      ghost var now := Snapshot(Table(), Repr, out, closed);
      ghost var room: nat := MaxNodes - count;
      var a, arrived := HandleEvent(events[i], replies[i]);
      ghost var next := Snapshot(Table(), Repr, out, closed);
      assert |next.table| == |now.table| + |arrived| - (if Keeps(a, replies[i].results) then 0 else 1);
      DispatchStep(events, replies, actions, rooms, shut, sizes, arrivals, a, room, arrived, n, listener, start, now, next);
      actions', rooms', shut' := actions + [a], rooms + [room], shut + [ShutBy(a, events[i], replies[i], room)];
      sizes', arrivals' := sizes + [|next.table|], arrivals + [arrived];
    }

    /** The loop of server_poll_events over a batch of `n` events from a
        successful epoll_wait: handles them in order. */
    method DispatchBatch(n: int, events: seq<Event>, replies: seq<Replies>)
      returns (ghost actions: seq<Action>, ghost rooms: seq<nat>, ghost shut: seq<seq<int>>,
               ghost sizes: seq<int>, ghost arrivals: seq<seq<Node>>)
      requires Valid() && master != null && Batch(events, replies, n)
      requires forall i :: 0 <= i < n ==> events[i].node in Table() && AcceptScript(replies[i].attempts)
      modifies this`count, this`closed, this`out, this`Repr, nodes, Repr
      ensures Valid() && master == old(master)
      ensures |actions| == |rooms| == |shut| == |arrivals| == n && |sizes| == n + 1
      ensures Dispatched(events, replies, actions, rooms, shut, sizes, arrivals, n, master.fd,
                         Snapshot(old(Table()), old(Repr), old(out), old(closed)), Snapshot(Table(), Repr, out, closed))
      ensures old(Repr) <= Repr && fresh(Repr - old(Repr))
    {
      ghost var start := Snapshot(Table(), Repr, out, closed);
      actions, rooms, shut, sizes, arrivals := [], [], [], [|start.table|], [];
      TableKnown();
      DispatchBegin(events, replies, n, master.fd, start);
      var i := 0;
      while i < n
        invariant 0 <= i <= n && |actions| == |rooms| == |shut| == |arrivals| == i && |sizes| == i + 1
        invariant Valid()
        invariant old(Repr) <= Repr && fresh(Repr - old(Repr))
        invariant master == old(master)
        invariant Dispatched(events, replies, actions, rooms, shut, sizes, arrivals, n, master.fd, start,
                             Snapshot(Table(), Repr, out, closed))
      {
        actions, rooms, shut, sizes, arrivals :=
          DispatchNext(events, replies, i, n, master.fd, actions, rooms, shut, sizes, arrivals, start);
        i := i + 1;
      }
    }

    /** server_poll_events, given what epoll_wait returned: `n` (-1 on failure)
        and the batch of events. Handles the first `n` events in order and
        returns `n`. */
    method PollEvents(n: int, events: seq<Event>, replies: seq<Replies>)
      returns (r: int, ghost actions: seq<Action>, ghost rooms: seq<nat>, ghost shut: seq<seq<int>>,
               ghost sizes: seq<int>, ghost arrivals: seq<seq<Node>>)
      requires Valid() && master != null
      requires n == -1 || 0 <= n <= MaxEvents
      requires n <= |events| == |replies|
      requires forall i :: 0 <= i < n ==> events[i].node in Table()
      requires forall i, j :: 0 <= i < j < n ==> events[i].node != events[j].node
      requires forall i :: 0 <= i < n ==> ReadScript(replies[i].results) && AcceptScript(replies[i].attempts)
      modifies this`count, this`closed, this`out, this`Repr, nodes, Repr
      ensures Valid() && r == n
      ensures n == -1 ==> Table() == old(Table()) && closed == old(closed) && out == old(out)
      ensures |actions| == |rooms| == |shut| == if n == -1 then 0 else n
      ensures forall i :: 0 <= i < |actions| ==>
                actions[i] == Classify(events[i].flags, events[i].node.fd == master.fd)
      ensures forall i :: 0 <= i < |actions| ==>
                (events[i].node in Table() <==> Keeps(actions[i], replies[i].results))
      ensures forall x: Node :: x in old(Table()) && (forall i :: 0 <= i < |actions| ==> events[i].node != x) ==>
                x in Table()
      ensures forall x: Node :: x in Table() && x in old(Repr) ==> x in old(Table())
      ensures out == old(out) + Forwarded(actions, replies)
      ensures forall i :: 0 <= i < |actions| ==>
                rooms[i] <= MaxNodes && shut[i] == ShutBy(actions[i], events[i], replies[i], rooms[i])
      ensures closed == old(closed) + Flatten(shut)
      ensures |sizes| == |actions| + 1 && |arrivals| == |actions|
      ensures sizes[0] == old(count) && sizes[|actions|] == count
      ensures Sized(replies, actions, rooms, sizes, arrivals)
      ensures forall x: Node :: x in Table() && x !in old(Repr) ==> x in Flatten(arrivals)
      ensures forall x: Node :: x in Flatten(arrivals) ==> x in Table() && x !in old(Repr)
      ensures old(Repr) <= Repr && fresh(Repr - old(Repr))
    {
      if n == -1 {
        actions, rooms, shut, sizes, arrivals := [], [], [], [count], [];
        TableKnown();
      } else {
        ghost var start := Snapshot(Table(), Repr, out, closed);
        actions, rooms, shut, sizes, arrivals := DispatchBatch(n, events, replies);
        DispatchDone(events, replies, actions, rooms, shut, sizes, arrivals, n, master.fd, start,
                     Snapshot(Table(), Repr, out, closed));
      }
      r := n;
    }
  }
}
