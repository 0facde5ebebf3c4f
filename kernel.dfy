/** What the operating system answers to the calls server.c makes. The calls
    themselves (read, accept, fcntl, epoll_ctl, calloc) are not modelled; the
    model is handed their outcomes. Constants carry their Linux values. */
module Kernel {

  /** errno for "no data / no connection right now" (EWOULDBLOCK is the same value). */
  const EAGAIN := 11

  /** Bits of `struct epoll_event.events`. */
  const EPOLLIN: bv32 := 0x001
  const EPOLLERR: bv32 := 0x008
  const EPOLLHUP: bv32 := 0x010

  /** One call of read(2): `Data(bytes)` is a return value of `|bytes|`
      (`Data([])` is end of file); `Failed(errno)` is a return value of -1. */
  datatype ReadResult = Data(bytes: seq<bv8>) | Failed(errno: int)

  /** One call of server_accept_connection's accept(2), with the outcomes of
      the setup steps server_add_node then performs on the new descriptor:
      the node allocation, making it non-blocking, registering it with epoll. */
  datatype Attempt =
    | Refused
    | Incoming(fd: int, memOk: bool, nonBlockOk: bool, ctlOk: bool)
}
