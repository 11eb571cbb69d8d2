/** The presence publisher of discord.py: the connection handle `RPC`, the throttle timestamp
    `last_rpc_update_time`, `initialize_rpc`, `update_discord_presence`, `close_rpc`, and the
    body of the main loop. The external presence client's connect and update calls are modelled
    by whether they succeed, given as inputs. */
module Publisher {
  import opened Facets
  import opened Variants

  /** The client id `initialize_rpc` refuses without trying to connect. */
  const Placeholder: string := "YOUR_CLIENT_ID_HERE"

  /** Time of the latest send attempt, or 0, the initial value of `last_rpc_update_time`. */
  function LastSend(sends: seq<real>): real {
    if |sends| == 0 then 0.0 else sends[|sends| - 1]
  }

  /** Time of the attempt before attempt `i`, or 0 before the first. */
  function Previous(sends: seq<real>, i: nat): real
    requires i < |sends|
  {
    if i == 0 then 0.0 else sends[i - 1]
  }

  /** Send times that respect the throttle: each attempt at least `interval` after the one before. */
  predicate WellSpaced(sends: seq<real>, interval: int) {
    forall i :: 0 <= i < |sends| ==> sends[i] - Previous(sends, i) >= interval as real
  }

  /** A send attempt at least `interval` after the latest one keeps the history well spaced. */
  lemma WellSpacedSnoc(sends: seq<real>, interval: int, t: real)
    requires WellSpaced(sends, interval)
    requires t - LastSend(sends) >= interval as real
    ensures WellSpaced(sends + [t], interval)
  {
    var s := sends + [t];
    forall i | 0 <= i < |s| ensures s[i] - Previous(s, i) >= interval as real {
      if i < |sends| {
        assert s[i] == sends[i] && Previous(s, i) == Previous(sends, i);
      }
    }
  }

  /** With a non-negative interval, the spacing carries over to any two attempts, not only
      consecutive ones: no two send attempts are less than `interval` apart. */
  lemma {:induction false} SpacingAnyPair(sends: seq<real>, interval: int, i: nat, j: nat)
    requires WellSpaced(sends, interval)
    requires interval >= 0
    requires i < j < |sends|
    ensures sends[j] - sends[i] >= interval as real
    decreases j - i
  {
    assert sends[j] - Previous(sends, j) >= interval as real;
    if i < j - 1 {
      SpacingAnyPair(sends, interval, i, j - 1);
    }
  }

  /** What one pass of the main loop gets from the outside world: the clock (`time.time()`), the
      sampled snapshot, and whether the connect and update calls of the presence client would succeed. */
  datatype TickInput = TickInput(now: real, snapshot: Snapshot, connectOk: bool, sendOk: bool)

  /** `v` is what a pass with input `t` may send: CPU and memory were sampled, and `v` is an
      eligible candidate of that snapshot's pool, formatted as its append formats it. */
  predicate SentFor(v: Variant, t: TickInput, showOs: bool, osName: string) {
    t.snapshot.cpu.Some? && t.snapshot.mem.Some? &&
    var args := Inputs(t.snapshot.cpu.value, t.snapshot.mem.value, t.snapshot.disk, t.snapshot.net, showOs, osName);
    Eligible(v.kind, args) && v == Render(v.kind, args)
  }

  /** The send attempts `sent`/`sends` were made by the passes `passes`, all before pass `bound`:
      at those passes' clock readings and from those passes' snapshots. */
  ghost predicate Tagged(sent: seq<Variant>, sends: seq<real>, passes: seq<nat>, ticks: seq<TickInput>,
                         bound: nat, showOs: bool, osName: string) {
    TaggedTimes(sends, passes, ticks, bound) && TaggedSent(sent, passes, ticks, showOs, osName)
  }

  /** The last attempt was made before pass `bound`, at the clock reading of its pass, and the
      earlier ones, recursively, before that pass. */
  ghost predicate TaggedTimes(sends: seq<real>, passes: seq<nat>, ticks: seq<TickInput>, bound: nat)
    decreases |passes|
  {
    |sends| == |passes| <= bound <= |ticks| &&
    (|passes| > 0 ==>
       var k := |passes| - 1;
       passes[k] < bound && sends[k] == ticks[passes[k]].now &&
       TaggedTimes(sends[..k], passes[..k], ticks, passes[k]))
  }

  /** Every attempt sent a candidate of its pass's snapshot. */
  ghost predicate TaggedSent(sent: seq<Variant>, passes: seq<nat>, ticks: seq<TickInput>, showOs: bool, osName: string)
    decreases |passes|
  {
    |sent| == |passes| &&
    (|passes| > 0 ==>
       var k := |passes| - 1;
       passes[k] < |ticks| && SentFor(sent[k], ticks[passes[k]], showOs, osName) &&
       TaggedSent(sent[..k], passes[..k], ticks, showOs, osName))
  }

  /** What the tagging means for the clock: the passes are strictly increasing and below `bound`,
      and attempt `m` was made at the clock reading of pass `passes[m]`. */
  lemma {:induction false} TaggedOrder(sends: seq<real>, passes: seq<nat>, ticks: seq<TickInput>, bound: nat)
    requires TaggedTimes(sends, passes, ticks, bound)
    ensures |sends| == |passes| <= bound <= |ticks|
    ensures forall m, n :: 0 <= m < n < |passes| ==> passes[m] < passes[n]
    ensures forall m :: 0 <= m < |passes| ==> passes[m] < bound && sends[m] == ticks[passes[m]].now
    decreases |passes|
  {
    if |passes| > 0 {
      var k := |passes| - 1;
      TaggedOrder(sends[..k], passes[..k], ticks, passes[k]);
      forall m | 0 <= m < k
        ensures passes[m] == passes[..k][m] && sends[m] == sends[..k][m]
      {
      }
    }
  }

  /** What the tagging means for the payload: attempt `m` sent a candidate of the snapshot of
      pass `passes[m]`. */
  lemma {:induction false} TaggedSnapshots(sent: seq<Variant>, passes: seq<nat>, ticks: seq<TickInput>,
                                           showOs: bool, osName: string)
    requires TaggedSent(sent, passes, ticks, showOs, osName)
    ensures forall m :: 0 <= m < |passes| ==>
              passes[m] < |ticks| && SentFor(sent[m], ticks[passes[m]], showOs, osName)
    decreases |passes|
  {
    if |passes| > 0 {
      var k := |passes| - 1;
      TaggedSnapshots(sent[..k], passes[..k], ticks, showOs, osName);
      forall m | 0 <= m < k
        ensures passes[m] < |ticks| && SentFor(sent[m], ticks[passes[m]], showOs, osName)
      {
        assert passes[m] == passes[..k][m] && sent[m] == sent[..k][m];
      }
    }
  }

  /** A pass that sends nothing leaves the tagging intact. */
  lemma TaggedSkip(sent: seq<Variant>, sends: seq<real>, passes: seq<nat>, ticks: seq<TickInput>,
                   i: nat, showOs: bool, osName: string)
    requires Tagged(sent, sends, passes, ticks, i, showOs, osName) && i < |ticks|
    ensures Tagged(sent, sends, passes, ticks, i + 1, showOs, osName)
  {
  }

  /** A pass `i` that sends `v` extends the tagging by one attempt tagged `i`. */
  lemma TaggedSend(sent: seq<Variant>, sends: seq<real>, passes: seq<nat>, ticks: seq<TickInput>,
                   i: nat, v: Variant, showOs: bool, osName: string)
    requires Tagged(sent, sends, passes, ticks, i, showOs, osName) && i < |ticks|
    requires SentFor(v, ticks[i], showOs, osName)
    ensures Tagged(sent + [v], sends + [ticks[i].now], passes + [i], ticks, i + 1, showOs, osName)
  {
    assert (sent + [v])[..|sent|] == sent;
    assert (sends + [ticks[i].now])[..|sends|] == sends;
    assert (passes + [i])[..|passes|] == passes;
  }

  /** With a non-negative interval, the clock readings of any two tagged attempts of a well-spaced
      history are at least `interval` apart. */
  lemma PassesSpaced(sends: seq<real>, passes: seq<nat>, ticks: seq<TickInput>, interval: int)
    requires WellSpaced(sends, interval) && interval >= 0 && |passes| == |sends|
    requires forall m :: 0 <= m < |passes| ==> passes[m] < |ticks| && sends[m] == ticks[passes[m]].now
    ensures forall m, n :: 0 <= m < n < |passes| ==> ticks[passes[n]].now - ticks[passes[m]].now >= interval as real
  {
    forall m, n | 0 <= m < n < |passes|
      ensures ticks[passes[n]].now - ticks[passes[m]].now >= interval as real
    {
      SpacingAnyPair(sends, interval, m, n);
    }
  }

  /** What the throttle rule of the main loop looks at: whether a handle is held, and the time of
      the latest send attempt. */
  datatype Throttle = Throttle(connected: bool, last: real)

  /** Whether a pass with input `t` attempts a send, when connecting is allowed: it connects first
      if there is no handle, and it is due when it then holds a handle, the interval has elapsed
      since the latest attempt, and CPU and memory were sampled. */
  predicate Due(t: TickInput, st: Throttle, interval: int) {
    (st.connected || t.connectOk) && t.now - st.last >= interval as real &&
    t.snapshot.cpu.Some? && t.snapshot.mem.Some?
  }

  /** The throttle state after such a pass: a due pass restarts the interval and keeps the handle
      exactly when its send succeeds; otherwise the handle is as the connect left it. */
  function Next(t: TickInput, st: Throttle, interval: int): Throttle {
    if Due(t, st, interval) then Throttle(t.sendOk, t.now) else Throttle(st.connected || t.connectOk, st.last)
  }

  /** The throttle state after the first `n` passes, starting from `start`. */
  ghost function StateAfter(ticks: seq<TickInput>, n: nat, start: Throttle, interval: int): Throttle
    requires n <= |ticks|
  {
    if n == 0 then start else Next(ticks[n - 1], StateAfter(ticks, n - 1, start, interval), interval)
  }

  /** The passes among the first `n` that attempt a send, in order. */
  ghost function DueUpTo(ticks: seq<TickInput>, n: nat, start: Throttle, interval: int): seq<nat>
    requires n <= |ticks|
  {
    if n == 0 then []
    else DueUpTo(ticks, n - 1, start, interval) +
         (if Due(ticks[n - 1], StateAfter(ticks, n - 1, start, interval), interval) then [n - 1] else [])
  }

  /** The due passes among the first `n` are strictly increasing pass numbers below `n`. */
  lemma {:induction false} DueUpToOrdered(ticks: seq<TickInput>, n: nat, start: Throttle, interval: int)
    requires n <= |ticks|
    ensures var ps := DueUpTo(ticks, n, start, interval);
            |ps| <= n &&
            (forall m :: 0 <= m < |ps| ==> ps[m] < n) &&
            (forall m, k :: 0 <= m < k < |ps| ==> ps[m] < ps[k])
  {
    if n > 0 {
      DueUpToOrdered(ticks, n - 1, start, interval);
    }
  }

  /** A single pass that holds or gets a handle, comes at least `interval` after the start, and has
      CPU and memory sampled does send; with the handle lost and a failed connect, it does not. */
  lemma OneDuePass(t: TickInput, connected: bool, interval: int)
    requires t.snapshot.cpu.Some? && t.snapshot.mem.Some? && t.now >= interval as real
    ensures DueUpTo([t], 1, Throttle(connected, 0.0), interval) == (if connected || t.connectOk then [0] else [])
  {
  }

  /** A pass as `Tick` performs it, from the state the first `i` passes leave, extends the due
      passes by `i` exactly when it sent, and leaves the state of the first `i + 1` passes. */
  lemma DueStep(ticks: seq<TickInput>, i: nat, start: Throttle, interval: int, after: Throttle, sent: bool)
    requires i < |ticks|
    requires var st := StateAfter(ticks, i, start, interval);
             (sent <==> Due(ticks[i], st, interval)) && after == Next(ticks[i], st, interval)
    ensures DueUpTo(ticks, i + 1, start, interval) == DueUpTo(ticks, i, start, interval) + (if sent then [i] else [])
    ensures StateAfter(ticks, i + 1, start, interval) == after
  {
  }

  class Session {
    /** Whether the presence client library imported (`PYPRESENCE_AVAILABLE`). */
    const libraryAvailable: bool
    /** `--discord-client-id`. */
    const clientId: string
    /** `--rpc-update-interval`, in seconds. */
    const interval: int
    /** `--show-os`. */
    const showOs: bool
    /** `OS_NAME`. */
    const osName: string

    /** `RPC is not None`: a presence handle is held. */
    var connected: bool
    /** `last_rpc_update_time`. */
    var last: real
    /** The times of all send attempts so far. */
    ghost var sends: seq<real>

    /** A handle is only ever held when the library is there and the id is not the placeholder;
        `last` is the time of the latest attempt; the attempts respect the throttle. */
    ghost predicate Valid()
      reads this
    {
      (connected ==> libraryAvailable && clientId != Placeholder) &&
      last == LastSend(sends) &&
      WellSpaced(sends, interval)
    }

    /** The process-wide state at start-up: `RPC = None`, `last_rpc_update_time = 0`. */
    constructor (libraryAvailable: bool, clientId: string, interval: int, showOs: bool, osName: string)
      ensures Valid()
      ensures this.libraryAvailable == libraryAvailable && this.clientId == clientId && this.interval == interval
      ensures this.showOs == showOs && this.osName == osName
      ensures !connected && last == 0.0 && sends == []
    {
      this.libraryAvailable := libraryAvailable;
      this.clientId := clientId;
      this.interval := interval;
      this.showOs := showOs;
      this.osName := osName;
      connected := false;
      last := 0.0;
      sends := [];
    }

    /** `initialize_rpc`: without the library or with the placeholder id it fails and changes nothing;
        otherwise it takes a handle, which it keeps exactly when the connect call succeeds. */
    method Connect(connectOk: bool) returns (ok: bool)
      requires Valid()
      modifies this`connected
      ensures Valid()
      ensures ok == (libraryAvailable && clientId != Placeholder && connectOk)
      ensures connected == if libraryAvailable && clientId != Placeholder then connectOk else old(connected)
    {
      if !libraryAvailable || clientId == Placeholder {
        return false;
      }
      connected := true;
      if connectOk {
        return true;
      }
      connected := false;
      return false;
    }

    /** `update_discord_presence`: with a handle, sends some candidate of the pool; a failed send
        drops the handle. Without a handle it does nothing. */
    method Update(cpu: CpuReading, mem: MemoryReading, disk: Option<DiskReading>, net: Option<NetReading>,
                  sendOk: bool) returns (sent: Option<Variant>)
      requires Valid()
      modifies this`connected
      ensures Valid()
      ensures sent.Some? <==> old(connected)
      ensures connected == (old(connected) && sendOk)
      ensures sent.Some? ==> var args := Inputs(cpu, mem, disk, net, showOs, osName);
                             Eligible(sent.value.kind, args) && sent.value == Render(sent.value.kind, args)
    {
      if !connected || !libraryAvailable {
        return None;
      }
      var pool := PresenceVariants(cpu, mem, disk, net, showOs, osName);
      PoolStartsWithCpuRam(pool, Inputs(cpu, mem, disk, net, showOs, osName));
      var i :| 0 <= i < |pool|;
      sent := Some(pool[i]);
      if !sendOk {
        connected := false;
      }
    }

    /** `close_rpc`: closes the handle if one is held (whatever the close call does) and always ends without one. */
    method Close() returns (attempted: bool)
      requires Valid()
      modifies this`connected
      ensures Valid() && !connected
      ensures attempted == (old(connected) && libraryAvailable)
    {
      attempted := connected && libraryAvailable;
      connected := false;
    }

    /** One pass of the main loop: connect if there is no handle; then, with a handle, once the
        interval has elapsed and both CPU and memory were sampled, attempt a send and restart the
        interval, whether or not the send succeeds. */
    method Tick(t: TickInput) returns (triedConnect: bool, sent: Option<Variant>)
      requires Valid()
      modifies this
      ensures Valid()
      ensures triedConnect == !old(connected)
      ensures var ready := old(connected) || (libraryAvailable && clientId != Placeholder && t.connectOk);
              var due := ready && t.now - old(last) >= interval as real && t.snapshot.cpu.Some? && t.snapshot.mem.Some?;
              (sent.Some? <==> due) &&
              last == (if due then t.now else old(last)) &&
              sends == (if due then old(sends) + [t.now] else old(sends)) &&
              connected == (if due then t.sendOk else ready)
      ensures sent.Some? ==> SentFor(sent.value, t, showOs, osName) && sends == old(sends) + [t.now]
      ensures sent.None? ==> sends == old(sends)
    {
      triedConnect := !connected;
      if !connected {
        var ok := Connect(t.connectOk);
      }
      sent := None;
      if connected && t.now - last >= interval as real {
        if t.snapshot.cpu.Some? && t.snapshot.mem.Some? {
          sent := Update(t.snapshot.cpu.value, t.snapshot.mem.value, t.snapshot.disk, t.snapshot.net, t.sendOk);
          WellSpacedSnoc(sends, interval, t.now);
          last := t.now;
          sends := sends + [t.now];
        }
      }
    }

    /** `main` from its start-up check on: without the library or with the placeholder id it returns
        at once; otherwise it restarts the throttle, runs one pass per input, and closes on the way out.
        `passes` names, for each send attempt, the pass that made it: exactly the passes `DueUpTo`
        selects, with each attempt `Tagged` by its pass (read pass by pass through `TaggedOrder`
        and `TaggedSnapshots`). */
    method Run(ticks: seq<TickInput>) returns (sent: seq<Variant>, ghost passes: seq<nat>)
      requires Valid()
      modifies this
      ensures Valid()
      ensures !(libraryAvailable && clientId != Placeholder) ==>
                sent == [] && passes == [] && connected == old(connected) && last == old(last) && sends == old(sends)
      ensures libraryAvailable && clientId != Placeholder ==>
                !connected && Tagged(sent, sends, passes, ticks, |ticks|, showOs, osName) &&
                passes == DueUpTo(ticks, |ticks|, Throttle(old(connected), 0.0), interval)
    {
      sent := [];
      passes := [];
      if !(libraryAvailable && clientId != Placeholder) {
        return;
      }
      last := 0.0;
      sends := [];
      ghost var hist: seq<real> := [];
      for i := 0 to |ticks|
        invariant Valid() && hist == sends
        invariant Tagged(sent, hist, passes, ticks, i, showOs, osName)
        invariant Throttle(connected, last) == StateAfter(ticks, i, Throttle(old(connected), 0.0), interval)
        invariant passes == DueUpTo(ticks, i, Throttle(old(connected), 0.0), interval)
      {
        var tried, s := Tick(ticks[i]);
        DueStep(ticks, i, Throttle(old(connected), 0.0), interval, Throttle(connected, last), s.Some?);
        if s.Some? {
          TaggedSend(sent, hist, passes, ticks, i, s.value, showOs, osName);
          sent := sent + [s.value];
          hist := hist + [ticks[i].now];
          passes := passes + [i];
        } else {
          TaggedSkip(sent, hist, passes, ticks, i, showOs, osName);
        }
      }
      var closed := Close();
    }
  }

  /** Two passes in a row: after a failed send the next pass first tries to connect, and sends only if
      that connect succeeds; and two sends in a row are at least the interval apart. */
  method ConsecutiveTicks(s: Session, a: TickInput, b: TickInput)
    returns (sentA: Option<Variant>, triedB: bool, sentB: Option<Variant>)
    requires s.Valid()
    modifies s
    ensures s.Valid()
    ensures sentA.Some? && !a.sendOk ==> triedB
    ensures sentA.Some? && !a.sendOk && sentB.Some? ==> b.connectOk
    ensures sentA.Some? && sentB.Some? ==> b.now - a.now >= s.interval as real
  {
    var triedA;
    triedA, sentA := s.Tick(a);
    triedB, sentB := s.Tick(b);
  }
}
