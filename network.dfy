/** The I/O controller network test, `networkio`: list the configured
    ethernet and token-ring interfaces, build a random printable message,
    send it on every interface and try a bounded number of times to receive
    it back; the test passes when no interface failed. */
module NetworkIo {
  import opened Process

  const MAX_INTERFACES: nat := 32
  const MSGSIZE: nat := 512
  const MAXMSGSIZE: nat := 512
  const MAXTRIES: nat := 5

  /** `sizeof(ifa->ifa_name)`: `ifa_name` is a `char *`, so this is the
      size of a pointer, 8 bytes on a 64-bit build. */
  const POINTER_SIZE: nat := 8

  datatype Family = Inet | Inet6 | PacketFamily | OtherFamily

  /** One entry of the `getifaddrs` list: its name, address family and the
      interface flags the filter looks at. */
  datatype IfAddr = IfAddr(name: string, family: Family,
                           up: bool, running: bool, loopback: bool,
                           multicast: bool, broadcast: bool, pointToPoint: bool)

  /** `strncmp(s, pre, |pre|) == 0` */
  predicate StartsWith(s: string, pre: string)
  {
    |pre| <= |s| && s[..|pre|] == pre
  }

  /** The interface filter: an "eth" or "tr" name, an IPv4 or IPv6 address,
      up or running, not loopback, and multicast, broadcast or
      point-to-point capable. */
  predicate Kept(a: IfAddr)
  {
    && (StartsWith(a.name, "eth") || StartsWith(a.name, "tr"))
    && (a.family == Inet || a.family == Inet6)
    && (a.up || a.running)
    && !a.loopback
    && (a.multicast || a.broadcast || a.pointToPoint)
  }

  /** The name as stored in the list: `strncpy` of at most `limit` bytes
      into a zeroed buffer; None stores the whole name. */
  function Stored(name: string, limit: Option<nat>): (s: string)
    ensures limit.None? ==> s == name
    ensures |s| <= |name| && s == name[..|s|]
    ensures limit.Some? ==> |s| <= limit.value
    ensures limit.Some? && |name| <= limit.value ==> s == name
  {
    if limit.Some? && |name| > limit.value then name[..limit.value] else name
  }

  /** The interface list built from the first addresses: a kept address is
      appended unless an entry already compares equal to its stored name.
      Comparing at most `limit` bytes of a stored name that is itself cut
      at `limit` bytes is comparing it with the stored form of the new
      name. */
  function Collect(addrs: seq<IfAddr>, limit: Option<nat>): seq<string>
  {
    if |addrs| == 0 then []
    else
      var list := Collect(addrs[..|addrs| - 1], limit);
      var a := addrs[|addrs| - 1];
      if Kept(a) && Stored(a.name, limit) !in list then list + [Stored(a.name, limit)] else list
  }

  /** Some kept address has stored name s. */
  predicate KeptName(addrs: seq<IfAddr>, s: string, limit: Option<nat>)
  {
    exists a :: a in addrs && Kept(a) && Stored(a.name, limit) == s
  }

  /** No two entries are equal, and the entries are exactly the stored
      names of the kept addresses. */
  lemma {:induction false} CollectDistinctAndComplete(addrs: seq<IfAddr>, limit: Option<nat>, s: string)
    ensures forall i, j :: 0 <= i < j < |Collect(addrs, limit)| ==> Collect(addrs, limit)[i] != Collect(addrs, limit)[j]
    ensures s in Collect(addrs, limit) <==> KeptName(addrs, s, limit)
  {
    if |addrs| > 0 {
      var init := addrs[..|addrs| - 1];
      var a := addrs[|addrs| - 1];
      assert addrs == init + [a];
      CollectDistinctAndComplete(init, limit, s);
      if KeptName(addrs, s, limit) {
        var b :| b in addrs && Kept(b) && Stored(b.name, limit) == s;
        if b in init {
          assert KeptName(init, s, limit);
        }
      }
      if KeptName(init, s, limit) {
        var b :| b in init && Kept(b) && Stored(b.name, limit) == s;
        assert b in addrs;
      }
    }
  }

  /** The list from a prefix of the addresses is a prefix of the whole
      list: entries keep the order in which their names were first
      seen. */
  lemma {:induction false} CollectKeepsFirstSeenOrder(addrs: seq<IfAddr>, n: nat, limit: Option<nat>)
    requires n <= |addrs|
    ensures Collect(addrs[..n], limit) <= Collect(addrs, limit)
    decreases |addrs| - n
  {
    if n < |addrs| {
      CollectKeepsFirstSeenOrder(addrs, n + 1, limit);
      assert addrs[..n + 1][..n] == addrs[..n];
    } else {
      assert addrs[..n] == addrs;
    }
  }

  /** Two ethernet interfaces whose names differ only after the eighth
      character, both up and broadcast capable. */
  const ETHERNET_PAIR: seq<IfAddr> := [
    IfAddr("ethernet0", Inet, true, true, false, false, true, false),
    IfAddr("ethernet1", Inet, true, true, false, false, true, false)
  ]

  /** As written, names are copied and compared on `sizeof(char *)` bytes,
      so ethernet0 and ethernet1 collapse into one entry "ethernet" and
      ethernet1 is never tested. */
  lemma PointerSizedNamesCollapse()
    ensures Collect(ETHERNET_PAIR, Some(POINTER_SIZE)) == ["ethernet"]
  {
    assert ETHERNET_PAIR[..1] == [ETHERNET_PAIR[0]];
    assert ETHERNET_PAIR[..1][..0] == [];
    assert "ethernet0"[..8] == "ethernet";
    assert "ethernet1"[..8] == "ethernet";
  }

  /** With whole names, as intended, every kept interface appears exactly
      once under its own name. */
  lemma WholeNamesListEveryInterfaceOnce(addrs: seq<IfAddr>, a: IfAddr)
    ensures a in addrs && Kept(a) ==> a.name in Collect(addrs, None)
    ensures forall i, j :: 0 <= i < j < |Collect(addrs, None)| ==> Collect(addrs, None)[i] != Collect(addrs, None)[j]
    ensures Collect(ETHERNET_PAIR, None) == ["ethernet0", "ethernet1"]
  {
    CollectDistinctAndComplete(addrs, None, a.name);
    assert ETHERNET_PAIR[..1] == [ETHERNET_PAIR[0]];
    assert ETHERNET_PAIR[..1][..0] == [];
    assert "ethernet0" != "ethernet1" by { assert "ethernet0"[8] != "ethernet1"[8]; }
  }

  /** The first loop of `get_interfaces`, storing names cut at `limit`
      bytes: `getifaddrs` failing (None) gives -1, otherwise the number of
      entries, which are Collect of the addresses. */
  method GetInterfaces(addrs: Option<seq<IfAddr>>, limit: Option<nat>) returns (list: array<string>, count: int)
    requires addrs.Some? ==> |Collect(addrs.value, limit)| <= MAX_INTERFACES
    ensures fresh(list) && list.Length == MAX_INTERFACES
    ensures addrs.None? ==> count == -1
    ensures addrs.Some? ==> 0 <= count <= MAX_INTERFACES && list[..count] == Collect(addrs.value, limit)
  {
    list := new string[MAX_INTERFACES](_ => "");
    if addrs.None? {
      return list, -1;
    }
    var ifas := addrs.value;
    var j := 0;
    var k := 0;
    while k < |ifas|
      invariant 0 <= k <= |ifas|
      invariant j == |Collect(ifas[..k], limit)| <= MAX_INTERFACES
      invariant list[..j] == Collect(ifas[..k], limit)
    {
      var ifa := ifas[k];
      CollectKeepsFirstSeenOrder(ifas, k + 1, limit);
      assert ifas[..k + 1][..k] == ifas[..k];
      assert ifas[..k + 1][k] == ifa;
      if !Kept(ifa) {
        k := k + 1;
        continue;
      }
      var name := Stored(ifa.name, limit);
      var found := false;
      var i := 0;
      while i < j
        invariant 0 <= i <= j
        invariant found <==> name in list[..i]
      {
        assert list[..i + 1] == list[..i] + [list[i]];
        if list[i] == name {
          found := true;
          break;
        }
        i := i + 1;
      }
      assert found <==> name in list[..j] by {
        if found { assert list[..i] <= list[..j]; }
        else { assert i == j; }
      }
      if !found {
        list[j] := name;
        j := j + 1;
      }
      k := k + 1;
    }
    assert ifas[..k] == ifas;
    return list, j;
  }

  /** The printable characters drawn from successive `random()` values:
      `(char)(rnd % 128)` kept when `isprint`. */
  function PrintableDraws(rands: seq<nat>): (cs: seq<char>)
    ensures |cs| <= |rands|
    ensures forall i :: 0 <= i < |cs| ==> 32 <= cs[i] as int <= 126
  {
    if |rands| == 0 then []
    else
      var c := rands[|rands| - 1] % 128;
      PrintableDraws(rands[..|rands| - 1]) + (if 32 <= c <= 126 then [c as char] else [])
  }

  /** More draws never lose characters already drawn. */
  lemma {:induction false} PrintableDrawsPrefix(rands: seq<nat>, n: nat)
    requires n <= |rands|
    ensures PrintableDraws(rands[..n]) <= PrintableDraws(rands)
    decreases |rands| - n
  {
    if n < |rands| {
      PrintableDrawsPrefix(rands, n + 1);
      assert rands[..n + 1][..n] == rands[..n];
    } else {
      assert rands[..n] == rands;
    }
  }

  /** The message: the first MSGSIZE printable draws. It has exactly MSGSIZE
      characters, all printable and below 128. */
  function Message(rands: seq<nat>): (msg: seq<char>)
    requires |PrintableDraws(rands)| >= MSGSIZE
    ensures |msg| == MSGSIZE
    ensures forall i :: 0 <= i < |msg| ==> 32 <= msg[i] as int <= 126 && msg[i] as int < 128
  {
    PrintableDraws(rands)[..MSGSIZE]
  }

  /** The message loop: draw until MSGSIZE printable characters are
      stored. */
  method GenerateMessage(rands: seq<nat>) returns (msg: array<char>)
    requires |PrintableDraws(rands)| >= MSGSIZE
    ensures fresh(msg) && msg[..] == Message(rands)
  {
    msg := new char[MSGSIZE](_ => 0 as char);
    var i := 0;
    var k := 0;
    while i < MSGSIZE
      invariant 0 <= k <= |rands| && 0 <= i <= MSGSIZE
      invariant i == |PrintableDraws(rands[..k])|
      invariant msg[..i] == PrintableDraws(rands[..k])
      invariant i < MSGSIZE ==> k < |rands|
      decreases |rands| - k
    {
      i := StoreDraw(msg, rands, i, k);
      k := k + 1;
      if k == |rands| {
        assert rands[..k] == rands;
      }
    }
    PrintableDrawsPrefix(rands, k);
    assert msg[..] == msg[..i];
  }

  /** One pass of the message loop: the k-th draw, stored at position i
      when it is printable. */
  method StoreDraw(msg: array<char>, rands: seq<nat>, i: nat, k: nat) returns (i': nat)
    requires msg.Length == MSGSIZE && i < MSGSIZE && k < |rands|
    requires i == |PrintableDraws(rands[..k])| && msg[..i] == PrintableDraws(rands[..k])
    modifies msg
    ensures i' <= MSGSIZE
    ensures i' == |PrintableDraws(rands[..k + 1])| && msg[..i'] == PrintableDraws(rands[..k + 1])
  {
    var c := rands[k] % 128;
    DrawStep(rands, k);
    i' := i;
    if 32 <= c <= 126 {
      msg[i] := c as char;
      i' := i + 1;
    }
  }

  /** One more draw appends its character when it is printable. */
  lemma DrawStep(rands: seq<nat>, k: nat)
    requires k < |rands|
    ensures var c := rands[k] % 128;
      PrintableDraws(rands[..k + 1]) == PrintableDraws(rands[..k]) + (if 32 <= c <= 126 then [c as char] else [])
  {
    var r := rands[..k + 1];
    assert r[..|r| - 1] == rands[..k] && r[|r| - 1] == rands[k];
  }

  /** What one `recvfrom` with MSG_DONTWAIT returns: -1, or a datagram. */
  datatype Recv = RecvError | Datagram(data: seq<char>)

  /** The j-th receive attempt on a socket with `queue` pending: once the
      queue is empty a non-blocking receive fails with -1. */
  function Attempt(queue: seq<Recv>, j: nat): Recv
  {
    if j < |queue| then queue[j] else RecvError
  }

  /** `packetbuf` after a datagram is received into it: the datagram,
      truncated to the buffer, over the previous contents. */
  function Filled(buf: seq<char>, data: seq<char>): (r: seq<char>)
    requires |buf| == MAXMSGSIZE
    ensures |r| == MAXMSGSIZE
  {
    var d := if |data| <= MAXMSGSIZE then data else data[..MAXMSGSIZE];
    d + buf[|d|..]
  }

  /** The receive loop from attempt `count` on: true when the interface
      fails, on a -1 from `recvfrom` or after MAXTRIES non-matching
      datagrams; false as soon as the buffer matches the message. */
  function ReceiveFails(buf: seq<char>, msg: seq<char>, queue: seq<Recv>, count: nat): bool
    requires |buf| == MAXMSGSIZE && count < MAXTRIES
    decreases MAXTRIES - count
  {
    match Attempt(queue, count)
    case RecvError => true
    case Datagram(data) =>
      var buf' := Filled(buf, data);
      if buf' == msg then false
      else if count + 1 == MAXTRIES then true
      else ReceiveFails(buf', msg, queue, count + 1)
  }

  /** The buffer after the first j attempts (an error writes nothing). */
  function BufferAfter(buf: seq<char>, queue: seq<Recv>, j: nat): (r: seq<char>)
    requires |buf| == MAXMSGSIZE
    ensures |r| == MAXMSGSIZE
  {
    if j == 0 then buf
    else
      match Attempt(queue, j - 1)
      case RecvError => BufferAfter(buf, queue, j - 1)
      case Datagram(data) => Filled(BufferAfter(buf, queue, j - 1), data)
  }

  /** Attempts k to j all returned a datagram, and after attempt j the
      buffer holds the message. */
  predicate MatchedAt(buf: seq<char>, msg: seq<char>, queue: seq<Recv>, k: nat, j: nat)
    requires |buf| == MAXMSGSIZE
  {
    && (forall i :: k <= i <= j ==> Attempt(queue, i).Datagram?)
    && BufferAfter(buf, queue, j + 1) == msg
  }

  /** The interface passes exactly when, within the first MAXTRIES attempts
      and before any error, the buffer came to hold the message; a match
      on the last allowed attempt still passes. */
  lemma {:induction false} ReceivePassesIffMatched(buf: seq<char>, msg: seq<char>, queue: seq<Recv>, k: nat)
    requires |buf| == MAXMSGSIZE && k < MAXTRIES
    ensures !ReceiveFails(BufferAfter(buf, queue, k), msg, queue, k) <==>
      exists j :: k <= j < MAXTRIES && MatchedAt(buf, msg, queue, k, j)
    decreases MAXTRIES - k
  {
    var b := BufferAfter(buf, queue, k);
    match Attempt(queue, k)
    case RecvError =>
      forall j | k <= j < MAXTRIES
        ensures !MatchedAt(buf, msg, queue, k, j)
      {
        assert !Attempt(queue, k).Datagram?;
      }
    case Datagram(data) =>
      assert BufferAfter(buf, queue, k + 1) == Filled(b, data);
      if Filled(b, data) == msg {
        assert MatchedAt(buf, msg, queue, k, k);
      } else if k + 1 == MAXTRIES {
        forall j | k <= j < MAXTRIES
          ensures !MatchedAt(buf, msg, queue, k, j)
        {
          assert j == k;
        }
      } else {
        ReceivePassesIffMatched(buf, msg, queue, k + 1);
        if !ReceiveFails(BufferAfter(buf, queue, k + 1), msg, queue, k + 1) {
          var j :| k + 1 <= j < MAXTRIES && MatchedAt(buf, msg, queue, k + 1, j);
          assert MatchedAt(buf, msg, queue, k, j);
        }
        if exists j :: k <= j < MAXTRIES && MatchedAt(buf, msg, queue, k, j) {
          var j :| k <= j < MAXTRIES && MatchedAt(buf, msg, queue, k, j);
          assert j != k;
          assert MatchedAt(buf, msg, queue, k + 1, j);
        }
      }
  }

  /** The do-while receive loop on one interface, with `packetbuf` as
      `buf`: at most MAXTRIES attempts, stopping at an error or a match.
      The interface fails iff the last `recvfrom` returned -1 or `count`
      reached MAXTRIES. */
  method ReceiveWithRetries(buf: array<char>, msg: array<char>, queue: seq<Recv>) returns (failed: bool, tries: nat)
    requires buf.Length == MAXMSGSIZE && msg.Length == MSGSIZE && buf != msg
    modifies buf
    ensures 1 <= tries <= MAXTRIES
    ensures failed == ReceiveFails(old(buf[..]), msg[..], queue, 0)
    ensures buf[..] == BufferAfter(old(buf[..]), queue, tries)
    ensures forall i :: 0 <= i < tries - 1 ==>
      Attempt(queue, i).Datagram? && BufferAfter(old(buf[..]), queue, i + 1) != msg[..]
    ensures failed <==> Attempt(queue, tries - 1).RecvError? || buf[..] != msg[..]
    ensures tries < MAXTRIES ==> Attempt(queue, tries - 1).RecvError? || buf[..] == msg[..]
  {
    ghost var m := msg[..];
    ghost var b0 := buf[..];
    ghost var spec := ReceiveFails(buf[..], m, queue, 0);
    var count := 0;
    var errored := false;
    while true
      invariant 0 <= count < MAXTRIES
      invariant msg[..] == m
      invariant spec == ReceiveFails(buf[..], m, queue, count)
      invariant buf[..] == BufferAfter(b0, queue, count)
      invariant forall i :: 0 <= i < count ==> Attempt(queue, i).Datagram? && BufferAfter(b0, queue, i + 1) != m
      decreases MAXTRIES - count
    {
      var cc := Attempt(queue, count);
      if cc.RecvError? {
        errored := true;
        assert BufferAfter(b0, queue, count + 1) == buf[..];
        break;
      }
      ghost var before := buf[..];
      Receive(buf, cc.data);
      assert buf[..] == BufferAfter(b0, queue, count + 1);
      if buf[..] == msg[..] {
        break;
      }
      ghost var next := count + 1;
      assert next < MAXTRIES ==> ReceiveFails(before, m, queue, count) == ReceiveFails(buf[..], m, queue, next);
      count := count + 1;
      if count == MAXTRIES {
        break;
      }
    }
    failed := errored || count == MAXTRIES;
    tries := if count == MAXTRIES then MAXTRIES else count + 1;
  }

  /** `recvfrom` copying a datagram into `packetbuf`. */
  method Receive(buf: array<char>, data: seq<char>)
    requires buf.Length == MAXMSGSIZE
    modifies buf
    ensures buf[..] == Filled(old(buf[..]), data)
  {
    var d := if |data| <= MAXMSGSIZE then data else data[..MAXMSGSIZE];
    forall i | 0 <= i < |d| {
      buf[i] := d[i];
    }
    assert buf[..] == d + old(buf[..])[|d|..];
  }

  /** What happened on one interface before the receive loop: the receive
      socket could not be created, binding it failed, `send_packet` failed,
      or the message was sent and `queue` is what arrived. */
  datatype IfaceRun = RecvSocketFailed | BindFailed | SendFailed | Sent(queue: seq<Recv>)

  /** A zeroed `packetbuf`. */
  function Zeros(): (z: seq<char>)
    ensures |z| == MAXMSGSIZE && forall i :: 0 <= i < |z| ==> z[i] == 0 as char
  {
    seq(MAXMSGSIZE, _ => 0 as char)
  }

  /** Whether an interface whose receive socket was created fails. */
  predicate IfaceFails(msg: seq<char>, run: IfaceRun)
  {
    !run.Sent? || ReceiveFails(Zeros(), msg, run.queue, 0)
  }

  /** The failures counted over interfaces k to n-1, or None when a receive
      socket cannot be created (the test returns -1 at once). */
  function FailuresFrom(msg: seq<char>, runs: seq<IfaceRun>, k: nat, n: nat): Option<nat>
    requires k <= n <= |runs|
    decreases n - k
  {
    if k == n then Some(0)
    else if runs[k].RecvSocketFailed? then None
    else
      match FailuresFrom(msg, runs, k + 1, n)
      case None => None
      case Some(f) => Some(f + (if IfaceFails(msg, runs[k]) then 1 else 0))
  }

  /** `networkio` as a function of `getifaddrs`' list (None: it failed),
      the name limit of the interface list, the `random()` values and what happened on each listed interface. */
  function NetworkOutcome(addrs: Option<seq<IfAddr>>, limit: Option<nat>, rands: seq<nat>, runs: seq<IfaceRun>): TestEnd
    requires addrs.Some? ==> |Collect(addrs.value, limit)| <= |runs|
    requires |PrintableDraws(rands)| >= MSGSIZE
  {
    if addrs.None? || |Collect(addrs.value, limit)| == 0 then Returned(MINUS_ONE)
    else
      match FailuresFrom(Message(rands), runs, 0, |Collect(addrs.value, limit)|)
      case None => Returned(MINUS_ONE)
      case Some(f) => if f == 0 then Returned(ZERO) else Returned(MINUS_ONE)
  }

  /** No failure from k on exactly when every interface from k on had its
      message sent and received back. */
  lemma {:induction false} NoFailuresIffAllPass(msg: seq<char>, runs: seq<IfaceRun>, k: nat, n: nat)
    requires k <= n <= |runs|
    ensures FailuresFrom(msg, runs, k, n) == Some(0) <==> forall i :: k <= i < n ==> !IfaceFails(msg, runs[i])
    decreases n - k
  {
    if k < n {
      NoFailuresIffAllPass(msg, runs, k + 1, n);
    }
  }

  /** The test returns 0 exactly when some interface was listed and every
      listed interface received its message back. */
  lemma NetworkPassesIff(addrs: Option<seq<IfAddr>>, limit: Option<nat>, rands: seq<nat>, runs: seq<IfaceRun>)
    requires addrs.Some? ==> |Collect(addrs.value, limit)| <= |runs|
    requires |PrintableDraws(rands)| >= MSGSIZE
    ensures NetworkOutcome(addrs, limit, rands, runs) == Returned(ZERO) <==>
      && addrs.Some? && |Collect(addrs.value, limit)| > 0
      && forall i :: 0 <= i < |Collect(addrs.value, limit)| ==> !IfaceFails(Message(rands), runs[i])
    ensures NetworkOutcome(addrs, limit, rands, runs) != Returned(ZERO) ==> NetworkOutcome(addrs, limit, rands, runs) == Returned(MINUS_ONE)
  {
    if addrs.Some? {
      NoFailuresIffAllPass(Message(rands), runs, 0, |Collect(addrs.value, limit)|);
    }
  }

  /** A bind or send failure costs that interface, and the test goes on to
      the next one. */
  lemma {:induction false} BindOrSendFailureContinues(msg: seq<char>, runs: seq<IfaceRun>, k: nat, n: nat)
    requires k < n <= |runs| && (runs[k] == BindFailed || runs[k] == SendFailed)
    ensures FailuresFrom(msg, runs, k, n).Some? <==> FailuresFrom(msg, runs, k + 1, n).Some?
    ensures FailuresFrom(msg, runs, k, n).Some? ==> FailuresFrom(msg, runs, k, n).value == FailuresFrom(msg, runs, k + 1, n).value + 1
  {
  }

  /** `networkio`. `limit` is how much of each interface name the list
      compares and keeps: `Some(POINTER_SIZE)` as written, `None` for the
      whole names (see PointerSizedNamesCollapse). */
  method NetworkTest(addrs: Option<seq<IfAddr>>, limit: Option<nat>, rands: seq<nat>, runs: seq<IfaceRun>) returns (r: TestEnd)
    requires addrs.Some? ==> |Collect(addrs.value, limit)| <= MAX_INTERFACES
    requires addrs.Some? ==> |Collect(addrs.value, limit)| <= |runs|
    requires |PrintableDraws(rands)| >= MSGSIZE
    ensures r == NetworkOutcome(addrs, limit, rands, runs)
  {
    var list, ifcount := GetInterfaces(addrs, limit);
    if ifcount <= 0 {
      return Returned(MINUS_ONE);
    }
    var msg := GenerateMessage(rands);
    var packetbuf := new char[MAXMSGSIZE](_ => 0 as char);
    ghost var spec := FailuresFrom(msg[..], runs, 0, ifcount);
    var failures := 0;
    var i := 0;
    while i < ifcount
      invariant 0 <= i <= ifcount
      invariant msg[..] == Message(rands)
      invariant spec.None? <==> FailuresFrom(msg[..], runs, i, ifcount).None?
      invariant spec.Some? ==> spec.value == failures + FailuresFrom(msg[..], runs, i, ifcount).value
      decreases ifcount - i
    {
      forall j | 0 <= j < packetbuf.Length {
        packetbuf[j] := 0 as char;
      }
      assert packetbuf[..] == Zeros();
      match runs[i] {
        case RecvSocketFailed =>
          return Returned(MINUS_ONE);
        case BindFailed =>
          failures := failures + 1;
        case SendFailed =>
          failures := failures + 1;
        case Sent(queue) =>
          var failed, _ := ReceiveWithRetries(packetbuf, msg, queue);
          if failed {
            failures := failures + 1;
          }
      }
      i := i + 1;
    }
    if failures == 0 {
      return Returned(ZERO);
    }
    return Returned(MINUS_ONE);
  }
}
