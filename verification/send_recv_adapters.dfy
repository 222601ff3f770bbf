/** The one-entry adapters between the cycle-level (CL) method interface and
    the register-transfer-level (RTL) en/rdy interface.

    `RecvCL2SendRTL` receives messages through a guarded `recv` method and
    offers them on RTL `send.en`/`send.msg`; `RecvRTL2SendCL` receives on RTL
    `recv.en`/`recv.msg`/`recv.rdy` and calls a CL `send` method. Each cycle is
    the fixed sequence of update blocks and method calls that the adapter's
    declared constraints impose. */
module SendRecvAdapters {
  import opened Wrappers

  //-----------------------------------------------------------------------
  // RecvCL2SendRTL
  //-----------------------------------------------------------------------

  /** `entry` is the one-message buffer; `en` and `msg` are the values last
      driven on `send.en` and `send.msg`. */
  datatype CL2RTL<M> = CL2RTL(entry: Option<M>, en: bool, msg: M)

  /** The state after `construct`: an empty entry, `send.en` and `send.msg` at
      their reset values (`MsgType()` is `default`). */
  function NewCL2RTL<M>(default: M): (s: CL2RTL<M>)
    ensures s.entry.None? && !s.en
  {
    CL2RTL(None, false, default)
  }

  /** `up_clear`: frees the entry when `send.en` is set. It runs before
      `up_send_rtl` writes `send.en`, so it sees last cycle's handshake. */
  function UpClear<M>(s: CL2RTL<M>): (r: CL2RTL<M>)
    ensures r.entry.None? <==> s.entry.None? || s.en
    ensures r.entry.Some? ==> r.entry == s.entry
    ensures r.en == s.en && r.msg == s.msg
  {
    if s.en then s.(entry := None) else s
  }

  /** The guard of `recv`. */
  predicate RecvRdy<M>(s: CL2RTL<M>) {
    s.entry.None?
  }

  /** `recv(msg)`: stores (a copy of) `msg` in the entry. */
  function Recv<M>(s: CL2RTL<M>, m: M): (r: CL2RTL<M>)
    requires RecvRdy(s)
    ensures r.entry == Some(m) && r.en == s.en && r.msg == s.msg
  {
    s.(entry := Some(m))
  }

  /** `up_send_rtl`: with an empty entry drives `en = 0` and the default
      message; otherwise offers the entry with `en = send.rdy`. */
  function UpSendRtl<M>(s: CL2RTL<M>, sendRdy: bool, default: M): (r: CL2RTL<M>)
    ensures r.entry == s.entry
    ensures s.entry.None? ==> !r.en && r.msg == default
    ensures s.entry.Some? ==> r.en == sendRdy && r.msg == s.entry.value
  {
    match s.entry
    case None => s.(en := false, msg := default)
    case Some(e) => s.(en := sendRdy, msg := e)
  }

  /** One cycle: `up_clear`, then `recv.rdy` and `recv` (called only when ready),
      then `up_send_rtl`. Returns the new state and whether `recv` was called. */
  function CL2RTLTick<M>(s: CL2RTL<M>, sendRdy: bool, incoming: Option<M>, default: M)
    : (r: (CL2RTL<M>, bool))
    ensures r.1 <==> incoming.Some? && (s.entry.None? || s.en)
    ensures r.1 ==> r.0.entry == Some(incoming.value) && r.0.msg == incoming.value
    ensures r.0.en ==> sendRdy && r.0.entry == Some(r.0.msg)
    ensures r.0.entry.None? ==> !r.0.en && r.0.msg == default
  {
    var s1 := UpClear(s);
    var accepted := incoming.Some? && RecvRdy(s1);
    var s2 := if accepted then Recv(s1, incoming.value) else s1;
    (UpSendRtl(s2, sendRdy, default), accepted)
  }

  /** A slot freed by last cycle's handshake is refilled and offered in the same cycle. */
  lemma CL2RTLRefillSameCycle<M>(s: CL2RTL<M>, m: M, sendRdy: bool, default: M)
    requires s.entry.Some? && s.en
    ensures var r := CL2RTLTick(s, sendRdy, Some(m), default);
      r.1 && r.0.entry == Some(m) && r.0.msg == m && r.0.en == sendRdy
  {
  }

  /** A message that was offered but not taken is offered again, and blocks `recv`. */
  lemma CL2RTLHoldsUntilTaken<M>(s: CL2RTL<M>, m: Option<M>, sendRdy: bool, default: M)
    requires s.entry.Some? && !s.en
    ensures var r := CL2RTLTick(s, sendRdy, m, default);
      !r.1 && r.0.entry == s.entry && r.0.msg == s.entry.value && r.0.en == sendRdy
  {
  }

  /** The message that was accepted but has not yet been handed over. */
  function Pending<M>(s: CL2RTL<M>): seq<M> {
    if s.entry.Some? && !s.en then [s.entry.value] else []
  }

  /** The RTL side's inputs and the CL caller's attempted message in one cycle. */
  datatype CL2RTLInput<M> = CL2RTLInput(sendRdy: bool, incoming: Option<M>)

  datatype CL2RTLTrace<M> = CL2RTLTrace(last: CL2RTL<M>, accepted: seq<M>, delivered: seq<M>)

  /** Runs the adapter for several cycles, collecting the messages `recv`
      accepted and the messages handed over (`en` set, so `send.rdy` was set). */
  function RunCL2RTL<M>(s: CL2RTL<M>, ins: seq<CL2RTLInput<M>>, default: M): CL2RTLTrace<M>
    decreases |ins|
  {
    if |ins| == 0 then CL2RTLTrace(s, [], [])
    else
      var (s1, acc) := CL2RTLTick(s, ins[0].sendRdy, ins[0].incoming, default);
      var rest := RunCL2RTL(s1, ins[1..], default);
      CL2RTLTrace(
        rest.last,
        (if acc then [ins[0].incoming.value] else []) + rest.accepted,
        (if s1.en then [s1.msg] else []) + rest.delivered)
  }

  /** Per cycle, the messages pending before and accepted during the cycle are
      the messages handed over followed by the ones still pending. */
  lemma CL2RTLTickConserves<M>(s: CL2RTL<M>, i: CL2RTLInput<M>, default: M)
    ensures var (s1, acc) := CL2RTLTick(s, i.sendRdy, i.incoming, default);
      Pending(s) + (if acc then [i.incoming.value] else [])
        == (if s1.en then [s1.msg] else []) + Pending(s1)
  {
  }

  /** Over any run, every accepted message is handed over exactly once and in
      order, except the one still pending at the end. */
  lemma {:induction false} RunCL2RTLConserves<M>(s: CL2RTL<M>, ins: seq<CL2RTLInput<M>>, default: M)
    ensures var t := RunCL2RTL(s, ins, default);
      Pending(s) + t.accepted == t.delivered + Pending(t.last)
    decreases |ins|
  {
    if |ins| > 0 {
      var (s1, acc) := CL2RTLTick(s, ins[0].sendRdy, ins[0].incoming, default);
      CL2RTLTickConserves(s, ins[0], default);
      RunCL2RTLConserves(s1, ins[1..], default);
      var a := if acc then [ins[0].incoming.value] else [];
      var dl := if s1.en then [s1.msg] else [];
      var rest := RunCL2RTL(s1, ins[1..], default);
      assert RunCL2RTL(s, ins, default) == CL2RTLTrace(rest.last, a + rest.accepted, dl + rest.delivered);
      ChainConserved(Pending(s), a, dl, Pending(s1), rest.accepted, rest.delivered, Pending(rest.last));
    }
  }

  /** Two conservation steps in a row compose into one. */
  lemma ChainConserved<M>(p0: seq<M>, in1: seq<M>, out1: seq<M>, p1: seq<M>, in2: seq<M>, out2: seq<M>, p2: seq<M>)
    requires p0 + in1 == out1 + p1
    requires p1 + in2 == out2 + p2
    ensures p0 + (in1 + in2) == (out1 + out2) + p2
  {
    calc {
      p0 + (in1 + in2);
      (p0 + in1) + in2;
      (out1 + p1) + in2;
      out1 + (p1 + in2);
      out1 + (out2 + p2);
    }
  }

  lemma FreshCL2RTLDeliversAccepted<M>(ins: seq<CL2RTLInput<M>>, default: M)
    ensures var t := RunCL2RTL(NewCL2RTL(default), ins, default);
      t.accepted == t.delivered + Pending(t.last)
  {
    RunCL2RTLConserves(NewCL2RTL(default), ins, default);
  }

  //-----------------------------------------------------------------------
  // RecvRTL2SendCL
  //-----------------------------------------------------------------------

  /** `sentMsg` is the message forwarded this cycle (for the line trace),
      `sendRdy` the sampled readiness of the CL callee, `recvRdy` the value
      driven on `recv.rdy`. */
  datatype RTL2CL<M> = RTL2CL(sentMsg: Option<M>, sendRdy: bool, recvRdy: bool)

  function NewRTL2CL<M>(): (s: RTL2CL<M>)
    ensures s.sentMsg.None? && !s.sendRdy
  {
    RTL2CL(None, false, false)
  }

  /** `up_recv_rtl_rdy`: `recv.rdy` and `send_rdy` both follow the callee's
      ready predicate, masked by `reset`. */
  function UpRecvRtlRdy<M>(s: RTL2CL<M>, calleeRdy: bool, reset: bool): (r: RTL2CL<M>)
    ensures r.recvRdy <==> calleeRdy && !reset
    ensures r.sendRdy == r.recvRdy
    ensures r.sentMsg == s.sentMsg
  {
    var rdy := calleeRdy && !reset;
    s.(sendRdy := rdy, recvRdy := rdy)
  }

  /** `up_send_cl`: calls the CL `send` with `recv.msg` when `recv.en` is set.
      The second component is the argument of that call, if any. */
  function UpSendCl<M>(s: RTL2CL<M>, recvEn: bool, recvMsg: M): (r: (RTL2CL<M>, Option<M>))
    ensures r.1 == r.0.sentMsg
    ensures r.0.sentMsg.Some? <==> recvEn
    ensures recvEn ==> r.0.sentMsg == Some(recvMsg)
    ensures r.0.sendRdy == s.sendRdy && r.0.recvRdy == s.recvRdy
  {
    var sent := if recvEn then Some(recvMsg) else None;
    (s.(sentMsg := sent), sent)
  }

  /** One cycle, `up_recv_rtl_rdy` before `up_send_cl`. The RTL sender's
      `en`/`msg` are a function of the `recv.rdy` it sees this cycle. */
  function RTL2CLTick<M>(s: RTL2CL<M>, calleeRdy: bool, reset: bool, sender: bool -> (bool, M))
    : (r: (RTL2CL<M>, Option<M>))
    ensures r.0.recvRdy <==> calleeRdy && !reset
    ensures r.0.sendRdy == r.0.recvRdy
    ensures r.1 == r.0.sentMsg
    ensures r.1.Some? <==> sender(calleeRdy && !reset).0
    ensures r.1.Some? ==> r.1.value == sender(calleeRdy && !reset).1
  {
    var s1 := UpRecvRtlRdy(s, calleeRdy, reset);
    var (en, msg) := sender(s1.recvRdy);
    UpSendCl(s1, en, msg)
  }

  /** Because `recv.rdy` is written before `up_send_cl` reads `recv.en`, an RTL
      sender that only sets `en` while it sees `rdy` never makes the adapter
      call a callee that is not ready, nor call it during reset. */
  lemma RTL2CLCallsOnlyWhenReady<M>(s: RTL2CL<M>, calleeRdy: bool, reset: bool, sender: bool -> (bool, M))
    requires !sender(false).0
    ensures RTL2CLTick(s, calleeRdy, reset, sender).1.Some? ==> calleeRdy && !reset
  {
  }
}
