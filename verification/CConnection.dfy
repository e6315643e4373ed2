/**
 * The DHCP client connection's two descriptors, the raw packet socket and the UDP socket, and their
 * registration with the poller: listening, connecting, draining and closing.
 */
module CConnection {
  import opened Bytes
  import opened Errno

  type Fd = fd: int | -1 <= fd         // -1: none
  datatype Phase = Init | Packet | Draining | Udp | Closed

  /** The process's open descriptors and those its poller watches. */
  datatype Os = Os(open: set<int>, watched: set<int>)

  datatype Conn = Conn(os: Os, phase: Phase, fdPoll: Fd, fdPacket: Fd, fdUdp: Fd, drain: nat) {
    /** The descriptors the connection holds. */
    function Held(): set<int> {
      (if fdPacket >= 0 then {fdPacket as int} else {}) + (if fdUdp >= 0 then {fdUdp as int} else {})
    }

    /** Without the packet socket: neither watched nor open any more. */
    function NoPacket(): Conn {
      this.(os := Os(os.open - {fdPacket as int}, os.watched - {fdPacket as int}), fdPacket := -1)
    }

    function NoUdp(): Conn {
      this.(os := Os(os.open - {fdUdp as int}, os.watched - {fdUdp as int}), fdUdp := -1)
    }

    /** With one more open and watched descriptor. */
    function With(fd: int): Conn {
      this.(os := Os(os.open + {fd}, os.watched + {fd}))
    }
  }

  /** The calls on a connection, each with what the system answers. */
  datatype Call =
    | Listen(socket: Option<nat>, added: bool)
    | Connect(socket: Option<nat>, added: bool, shutdown: bool, timeout: nat)
    | DrainExpired(timestamp: nat)     // the timer was dispatched
    | Drained(timeout: nat)            // the shut-down packet socket has nothing left to read
    | Close

  /** The phases in which a call is made, and descriptors that the system has not handed out. */
  predicate Legal(c: Conn, call: Call) {
    match call
    case Listen(socket, _) => c.phase in {Init, Draining, Udp} && (socket.Some? ==> socket.value !in c.os.open)
    case Connect(socket, _, _, _) => c.phase == Packet && (socket.Some? ==> socket.value !in c.os.open)
    case Drained(_) => c.phase == Draining
    case _ => true
  }

  /** A call that fails to get or to register its descriptor leaves the system as if it had not asked. */
  function Step(c: Conn, call: Call): Conn {
    match call
    case Listen(socket, added) =>
      var idle := c.NoPacket().NoUdp().(drain := if c.fdPacket >= 0 then 0 else c.drain);
      if socket.Some? && added then idle.With(socket.value).(phase := Packet, fdPacket := socket.value) else idle
    case Connect(socket, added, shutdown, timeout) =>
      if socket.Some? && added && shutdown
      then c.With(socket.value).(phase := Draining, fdUdp := socket.value, drain := timeout) else c
    case DrainExpired(timestamp) =>
      if c.drain != 0 && c.drain < timestamp then c.NoPacket().(phase := Udp, drain := 0) else c
    case Drained(timeout) => c.NoPacket().(phase := Udp, drain := timeout)
    case Close => c.NoUdp().NoPacket().(fdPoll := -1, phase := Closed, drain := 0)
  }

  // ---- Every run ----

  /**
   * Beyond what was open and watched before the connection existed, exactly its own descriptors are
   * open, and exactly those are watched.
   */
  predicate Inv(c: Conn, before: Os) {
    && before.watched <= before.open && -1 !in before.open
    && before.open !! c.Held()
    && (c.fdPacket >= 0 ==> c.fdPacket != c.fdUdp)
    && c.os == Os(before.open + c.Held(), before.watched + c.Held())
    && (c.phase == Packet ==> c.fdPacket >= 0)
    && (c.fdUdp >= 0 ==> c.phase in {Draining, Udp})
    && (c.phase in {Init, Closed} ==> c.Held() == {})
  }

  lemma StepKeepsInv(c: Conn, before: Os, call: Call)
    requires Inv(c, before) && Legal(c, call)
    ensures Inv(Step(c, call), before)
  {
  }

  predicate LegalRun(c: Conn, calls: seq<Call>)
    decreases |calls|
  {
    calls == [] || (Legal(c, calls[0]) && LegalRun(Step(c, calls[0]), calls[1..]))
  }

  function After(c: Conn, calls: seq<Call>): Conn
    decreases |calls|
  {
    if calls == [] then c else After(Step(c, calls[0]), calls[1..])
  }

  lemma {:induction false} RunKeepsInv(c: Conn, before: Os, calls: seq<Call>)
    requires Inv(c, before) && LegalRun(c, calls)
    ensures Inv(After(c, calls), before)
    decreases |calls|
  {
    if calls != [] {
      StepKeepsInv(c, before, calls[0]);
      RunKeepsInv(Step(c, calls[0]), before, calls[1..]);
    }
  }

  /**
   * After every run of calls, with any failures along the way, the poller watches exactly the
   * descriptors that the connection holds open, and nothing was leaked; after a close there are none.
   */
  lemma {:induction false} RunKeepsWatchedSet(c: Conn, before: Os, calls: seq<Call>)
    requires Inv(c, before) && LegalRun(c, calls)
    ensures var d := After(c, calls);
      && d.os.watched - before.watched == d.Held() == d.os.open - before.open
      && (calls != [] && calls[|calls| - 1].Close? ==> d.os == before)
    decreases |calls|
  {
    if calls != [] {
      StepKeepsInv(c, before, calls[0]);
      RunKeepsWatchedSet(Step(c, calls[0]), before, calls[1..]);
    }
  }

  /**
   * Giving up the drained socket takes a watched descriptor off the poller, in any run, if and only if the
   * connection still holds one.
   */
  lemma DrainedIsWatchedIff(c: Conn, before: Os, calls: seq<Call>)
    requires Inv(c, before) && LegalRun(c, calls)
    ensures var d := After(c, calls); d.fdPacket in d.os.watched <==> d.fdPacket >= 0
  {
    RunKeepsInv(c, before, calls);
  }

  /** It may not: a listen that fails while draining closes both sockets and leaves the phase as it was. */
  lemma FailedListenKeepsDraining(packet: nat, udp: nat)
    requires packet != udp
    ensures var c := Conn(Os({}, {}), Init, 0, -1, -1, 0);
      var calls := [Listen(Some(packet), true), Connect(Some(udp), true, true, 1), Listen(None, false)];
      && Inv(c, Os({}, {})) && LegalRun(c, calls)
      && After(c, calls).phase == Draining && After(c, calls).fdPacket == -1
  {
    var c := Conn(Os({}, {}), Init, 0, -1, -1, 0);
    var c1 := Step(c, Listen(Some(packet), true));
    var c2 := Step(c1, Connect(Some(udp), true, true, 1));
    var c3 := Step(c2, Listen(None, false));
    var calls := [Listen(Some(packet), true), Connect(Some(udp), true, true, 1), Listen(None, false)];
    assert calls[1..][1..][1..] == [];
    assert After(c2, calls[1..][1..]) == After(c3, []);
    assert LegalRun(c2, calls[1..][1..]) && LegalRun(c1, calls[1..]);
    assert After(c1, calls[1..]) == After(c2, calls[1..][1..]);
  }

  /** What each call comes to: the phase, and the descriptors held, open and watched. */
  lemma CallOutcome(c: Conn, before: Os, call: Call)
    requires Inv(c, before) && Legal(c, call)
    ensures var d := Step(c, call);
      && d.os == Os(before.open + d.Held(), before.watched + d.Held())
      && match call
         case Listen(socket, added) =>
           d.drain == (if c.fdPacket == -1 then c.drain else 0) &&
           if socket.Some? && added then d.phase == Packet && d.Held() == {socket.value as int} && d.fdUdp == -1
           else d.phase == c.phase && d.Held() == {}
         case Connect(socket, added, shutdown, timeout) =>
           if socket.Some? && added && shutdown
           then d.phase == Draining && d.fdPacket == c.fdPacket && d.fdUdp == socket.value && d.drain == timeout
           else d == c
         case DrainExpired(timestamp) =>
           if 0 < c.drain < timestamp then d.phase == Udp && d.fdPacket == -1 && d.fdUdp == c.fdUdp && d.drain == 0
           else d == c
         case Drained(timeout) => d.phase == Udp && d.fdPacket == -1 && d.fdUdp == c.fdUdp && d.drain == timeout
         case Close => d.phase == Closed && d.Held() == {} && d.fdPoll == -1 && d.drain == 0
  {
    StepKeepsInv(c, before, call);
  }

  // ---- The drain timeout ----

  /** The timer is dispatched at these times. */
  function Dispatches(ts: seq<nat>): seq<Call> {
    if ts == [] then [] else [DrainExpired(ts[0])] + Dispatches(ts[1..])
  }

  /** Until the timeout has passed, nothing happens, however often the timer is dispatched. */
  lemma {:induction false} DrainGoesOn(c: Conn, ts: seq<nat>)
    requires forall t :: t in ts ==> c.drain == 0 || t <= c.drain
    ensures LegalRun(c, Dispatches(ts)) && After(c, Dispatches(ts)) == c
    decreases |ts|
  {
    if ts != [] {
      assert Dispatches(ts)[0] == DrainExpired(ts[0]) && Dispatches(ts)[1..] == Dispatches(ts[1..]);
      assert ts[0] in ts && forall t :: t in ts[1..] ==> t in ts;
      DrainGoesOn(c, ts[1..]);
    }
  }

  /**
   * From listening and connecting on, the packet socket is kept, open and watched, over all dispatches up to
   * the timeout, and given up at the first one behind it; the UDP socket is kept.
   */
  lemma DrainsUntilTimeout(c: Conn, before: Os, packet: nat, udp: nat, timeout: nat, ts: seq<nat>, t: nat)
    requires Inv(c, before) && c.phase == Init && packet !in c.os.open && udp !in c.os.open && packet != udp
    requires 0 < timeout < t && forall early :: early in ts ==> early <= timeout
    ensures var c1 := Step(Step(c, Listen(Some(packet), true)), Connect(Some(udp), true, true, timeout));
      var c2 := After(c1, Dispatches(ts));
      var c3 := Step(c2, DrainExpired(t));
      && c2.phase == Draining && c2.fdPacket == packet && c2.fdUdp == udp && packet in c2.os.open * c2.os.watched
      && c3.phase == Udp && c3.fdPacket == -1 && c3.fdUdp == udp && packet !in c3.os.open + c3.os.watched
  {
    var c0 := Step(c, Listen(Some(packet), true));
    StepKeepsInv(c, before, Listen(Some(packet), true));
    CallOutcome(c, before, Listen(Some(packet), true));
    var c1 := Step(c0, Connect(Some(udp), true, true, timeout));
    StepKeepsInv(c0, before, Connect(Some(udp), true, true, timeout));
    CallOutcome(c0, before, Connect(Some(udp), true, true, timeout));
    DrainGoesOn(c1, ts);
    CallOutcome(c1, before, DrainExpired(t));
  }

  // ---- The functions ----


  /** Descriptors as the connection's functions see them; closing does not unwatch. */
  class Kernel {
    var open: set<int>
    var watched: set<int>

    method PollAdd(fd: int, added: bool) returns (r: int)
      modifies this`watched
      ensures r == (if added then 0 else -1) && watched == if added then old(watched) + {fd} else old(watched)
    {
      if !added { return -1; }
      watched := watched + {fd};
      return 0;
    }

    /** EPOLL_CTL_DEL or EV_DELETE: fails for a descriptor that is not watched. */
    method EventDel(fd: int) returns (errno: int)
      modifies this`watched
      ensures watched == old(watched) - {fd} && errno == if fd in old(watched) then 0 else ENOENT
    {
      errno := if fd in watched then 0 else ENOENT;
      watched := watched - {fd};
    }

    /** n_dhcp4_os_poll_del of either system, which makes nothing of a failure. */
    method PollDel(fd: int) returns (r: int)
      modifies this`watched
      ensures watched == old(watched) - {fd} && r == 0
    {
      var _ := EventDel(fd);
      return 0;
    }

    method OpenSocket(socket: Option<nat>) returns (r: int, fd: Fd)
      modifies this`open
      ensures r == (if socket.Some? then 0 else -1) && fd == (if socket.Some? then socket.value else -1)
      ensures open == if socket.Some? then old(open) + {socket.value} else old(open)
    {
      if socket.None? { return -1, -1; }
      open := open + {socket.value};
      return 0, socket.value;
    }

    method CClose(fd: Fd) returns (none: Fd)
      modifies this`open
      ensures none == -1 && open == old(open) - {fd as int}
    {
      open := open - {fd as int};
      return -1;
    }
  }

  class Connection {
    const kernel: Kernel
    var phase: Phase
    var fdPoll: Fd
    var fdPacket: Fd
    var fdUdp: Fd
    var nsDrainTimeout: nat

    ghost function State(): Conn
      reads this, kernel
    {
      Conn(Os(kernel.open, kernel.watched), phase, fdPoll, fdPacket, fdUdp, nsDrainTimeout)
    }

    /** -1 stands for no descriptor, so it is never open. */
    ghost predicate Valid()
      reads this, kernel
    {
      -1 !in kernel.open && -1 !in kernel.watched
    }

    constructor (k: Kernel, poll: Fd)
      requires -1 !in k.open && k.watched <= k.open
      ensures kernel == k && Valid() && Inv(State(), Os(k.open, k.watched))
      ensures phase == if poll < 0 then Closed else Init
    {
      kernel := k;
      phase := if poll < 0 then Closed else Init;
      fdPoll, fdPacket, fdUdp, nsDrainTimeout := poll, -1, -1, 0;
    }

    method Listen(socket: Option<nat>, added: bool) returns (r: int)
      requires Valid() && Legal(State(), Call.Listen(socket, added))
      modifies this, kernel
      ensures Valid() && State() == Step(old(State()), Call.Listen(socket, added))
      ensures r == 0 <==> socket.Some? && added
    {
      if fdPacket >= 0 {
        var _ := kernel.PollDel(fdPacket);
        fdPacket := kernel.CClose(fdPacket);
        nsDrainTimeout := 0;
      }
      if fdUdp >= 0 {
        var _ := kernel.PollDel(fdUdp);
        fdUdp := kernel.CClose(fdUdp);
      }
      var fd;
      r, fd := kernel.OpenSocket(socket);
      if r != 0 { return r; }
      r := kernel.PollAdd(fd, added);
      if r != 0 {
        fd := kernel.CClose(fd);
        return r;
      }
      phase := Packet;
      fdPacket := fd;
      return 0;
    }

    method Connect(socket: Option<nat>, added: bool, shutdown: bool, timeout: nat) returns (r: int)
      requires Valid() && Legal(State(), Call.Connect(socket, added, shutdown, timeout))
      requires socket.Some? ==> socket.value !in kernel.watched
      modifies this, kernel
      ensures Valid() && State() == Step(old(State()), Call.Connect(socket, added, shutdown, timeout))
      ensures r == 0 <==> socket.Some? && added && shutdown
    {
      var fd;
      r, fd := kernel.OpenSocket(socket);
      if r != 0 { return r; }
      r := kernel.PollAdd(fd, added);
      if r != 0 {
        fd := kernel.CClose(fd);
        return r;
      }
      if !shutdown {
        var _ := kernel.PollDel(fd);
        fd := kernel.CClose(fd);
        return -1;
      }
      phase := Draining;
      fdUdp := fd;
      nsDrainTimeout := timeout;
      return 0;
    }

    method Close()
      requires Valid()
      modifies this, kernel
      ensures Valid() && State() == Step(old(State()), Call.Close)
    {
      if fdUdp >= 0 {
        var _ := kernel.PollDel(fdUdp);
        fdUdp := kernel.CClose(fdUdp);
      }
      if fdPacket >= 0 {
        var _ := kernel.PollDel(fdPacket);
        fdPacket := kernel.CClose(fdPacket);
      }
      fdPoll := -1;
      phase := Closed;
      nsDrainTimeout := 0;
    }

    method DispatchTimer(timestamp: nat)
      requires Valid()
      modifies this, kernel
      ensures Valid() && State() == Step(old(State()), DrainExpired(timestamp))
    {
      if nsDrainTimeout != 0 && nsDrainTimeout < timestamp {
        var _ := kernel.PollDel(fdPacket);
        fdPacket := kernel.CClose(fdPacket);
        phase := Udp;
        nsDrainTimeout := 0;
      }
    }

    /** `timeout` is what the rest of the dispatcher leaves in the drain timeout. */
    method FinishDrain(timeout: nat)
      requires Valid() && Legal(State(), Drained(timeout))
      modifies this, kernel
      ensures Valid() && State() == Step(old(State()), Drained(timeout))
    {
      var r := kernel.PollDel(fdPacket);
      assert r == 0;
      fdPacket := kernel.CClose(fdPacket);
      phase := Udp;
      nsDrainTimeout := timeout;
    }
  }
}
