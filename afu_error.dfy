// The error block of an accelerator port: the port error latch with its
// first-error register and the two words of the first malformed request.
// Clearing it needs the port held in reset, which the port's reset logic
// provides; that logic and the port header's power-state field are outside
// this model and enter as parameters.

module AfuError {
  import opened Mmio
  import opened Errno

  // Register indices in the port error feature's window (byte offset / 8).
  const PORT_ERROR_MASK: nat := 1        // 0x08
  const PORT_ERROR: nat := 2             // 0x10
  const PORT_FIRST_ERROR: nat := 3       // 0x18
  const PORT_MALFORMED_REQ0: nat := 4    // 0x20
  const PORT_MALFORMED_REQ1: nat := 5    // 0x28

  /** GENMASK_ULL(63, 0): every port error masked. */
  const ERROR_MASK: bv64 := ALL_ONES

  const LOW_WORD: bv128 := 0xFFFF_FFFF_FFFF_FFFF

  /** The 128-bit first malformed request as first_malformed_req_show prints
      it: MALFORMED_REQ1 is the high word, MALFORMED_REQ0 the low word. */
  function MalformedReq(req0: bv64, req1: bv64): (r: bv128)
    ensures (r >> 64) as bv64 == req1
    ensures (r & LOW_WORD) as bv64 == req0
  {
    (req1 as bv128 << 64) | req0 as bv128
  }

  /** Two requests print the same exactly when both of their words agree. */
  lemma MalformedReqInjective(a0: bv64, a1: bv64, b0: bv64, b1: bv64)
    ensures MalformedReq(a0, a1) == MalformedReq(b0, b1) <==> a0 == b0 && a1 == b1
  {
    if MalformedReq(a0, a1) == MalformedReq(b0, b1) {
      assert (MalformedReq(a0, a1) >> 64) as bv64 == (MalformedReq(b0, b1) >> 64) as bv64;
      assert (MalformedReq(a0, a1) & LOW_WORD) as bv64 == (MalformedReq(b0, b1) & LOW_WORD) as bv64;
    }
  }

  /** __port_err_clear once the port is held in reset; `v` and `first` are
      what PORT_ERROR and PORT_FIRST_ERROR read. */
  function PortClearTrace(err: bv64, v: bv64, first: bv64): (t: seq<Event>)
    ensures |t| == if v == err then 8 else 5
    ensures t[0] == DisablePort && t[1] == Write(PORT_ERROR_MASK, ERROR_MASK) && t[2] == Read(PORT_ERROR, v)
    ensures t[|t| - 2] == Write(PORT_ERROR_MASK, 0) && t[|t| - 1] == EnablePort
  {
    [DisablePort, Write(PORT_ERROR_MASK, ERROR_MASK), Read(PORT_ERROR, v)]
    + (if v == err then
         [Write(PORT_ERROR, v), Read(PORT_FIRST_ERROR, first), Write(PORT_FIRST_ERROR, first)]
       else [])
    + [Write(PORT_ERROR_MASK, 0), EnablePort]
  }

  /** The same sequence as PortErrorBlock.PortErrClear appends it to the log. */
  function PortClearLog(l: Log, err: bv64, v: bv64, first: bv64): (r: Log)
    ensures r.Snoc? && r.last == EnablePort
    ensures r.before.Snoc? && r.before.last == Write(PORT_ERROR_MASK, 0)
  {
    var masked := Snoc(Snoc(Snoc(l, DisablePort), Write(PORT_ERROR_MASK, ERROR_MASK)), Read(PORT_ERROR, v));
    var cleared := if v == err then
        Snoc(Snoc(Snoc(masked, Write(PORT_ERROR, v)),
          Read(PORT_FIRST_ERROR, first)), Write(PORT_FIRST_ERROR, first))
      else masked;
    Snoc(Snoc(cleared, Write(PORT_ERROR_MASK, 0)), EnablePort)
  }

  lemma PortClearLogEvents(l: Log, err: bv64, v: bv64, first: bv64)
    ensures Events(PortClearLog(l, err, v, first)) == Events(l) + PortClearTrace(err, v, first)
  {
    var d, w, r := DisablePort, Write(PORT_ERROR_MASK, ERROR_MASK), Read(PORT_ERROR, v);
    var u, e := Write(PORT_ERROR_MASK, 0), EnablePort;
    var m := Snoc(Snoc(l, d), w);
    assert Events(m) == Events(l) + [d, w];
    var masked := Snoc(m, r);
    assert Events(masked) == Events(l) + [d, w, r];
    if v == err {
      var w1, r1, w2 := Write(PORT_ERROR, v), Read(PORT_FIRST_ERROR, first), Write(PORT_FIRST_ERROR, first);
      var c1 := Snoc(Snoc(masked, w1), r1);
      assert Events(c1) == Events(l) + [d, w, r, w1, r1];
      var c2 := Snoc(Snoc(c1, w2), u);
      assert Events(c2) == Events(l) + [d, w, r, w1, r1, w2, u];
      assert Events(Snoc(c2, e)) == Events(l) + [d, w, r, w1, r1, w2, u, e];
      assert PortClearTrace(err, v, first) == [d, w, r, w1, r1, w2, u, e];
    } else {
      assert Events(Snoc(Snoc(masked, u), e)) == Events(l) + [d, w, r, u, e];
      assert PortClearTrace(err, v, first) == [d, w, r, u, e];
    }
  }

  /** A port clear is bracketed by the reset: it starts by disabling the port,
      ends by enabling it, unmasks just before the enable, and touches the
      port reset logic nowhere in between. */
  lemma PortClearQuiesced(err: bv64, v: bv64, first: bv64)
    ensures var t := PortClearTrace(err, v, first);
      && 5 <= |t|
      && t[0] == DisablePort
      && t[|t| - 1] == EnablePort
      && t[|t| - 2] == Write(PORT_ERROR_MASK, 0)
      && forall i :: 0 < i < |t| - 1 ==> t[i].Read? || t[i].Write?
  {
  }

  /** While the port is in reset the clear writes nothing but the mask and
      the two latches, writes each latch only with the value just read from
      it, and leaves the mask at 0. */
  lemma PortClearProtocol(err: bv64, v: bv64, first: bv64)
    ensures var t := PortClearTrace(err, v, first);
      && WritesOnly(t, {PORT_ERROR_MASK, PORT_ERROR, PORT_FIRST_ERROR})
      && WritesBackReads(t, {PORT_ERROR, PORT_FIRST_ERROR})
      && LastWrite(t, PORT_ERROR_MASK) == Some(0)
  {
    var t := PortClearTrace(err, v, first);
    if v == err {
      assert t == [DisablePort, Write(PORT_ERROR_MASK, ERROR_MASK), Read(PORT_ERROR, v),
                   Write(PORT_ERROR, v), Read(PORT_FIRST_ERROR, first), Write(PORT_FIRST_ERROR, first),
                   Write(PORT_ERROR_MASK, 0), EnablePort];
    } else {
      assert t == [DisablePort, Write(PORT_ERROR_MASK, ERROR_MASK), Read(PORT_ERROR, v),
                   Write(PORT_ERROR_MASK, 0), EnablePort];
    }
    LastWriteAt(t, |t| - 2, PORT_ERROR_MASK);
  }

  /** The clear masks every error before reading anything, and reads the
      latches only while they are masked. */
  lemma PortClearMasked(err: bv64, v: bv64, first: bv64)
    ensures var t := PortClearTrace(err, v, first);
      && t[1] == Write(PORT_ERROR_MASK, ERROR_MASK)
      && (forall i :: 0 <= i < 2 ==> !t[i].Read?)
      && ReadsUnderMask(t, PORT_ERROR_MASK, {PORT_ERROR, PORT_FIRST_ERROR})
  {
    var pre := [DisablePort, Write(PORT_ERROR_MASK, ERROR_MASK)];
    var latches := if v == err then
        [Write(PORT_ERROR, v), Read(PORT_FIRST_ERROR, first), Write(PORT_FIRST_ERROR, first)]
      else [];
    var body := [Read(PORT_ERROR, v)] + latches;
    var post := [Write(PORT_ERROR_MASK, 0), EnablePort];
    assert PortClearTrace(err, v, first) == pre + body + post;
    MaskedWindow(pre, body, post, PORT_ERROR_MASK, {PORT_ERROR, PORT_FIRST_ERROR});
  }

  /** The latches are written exactly when the value read matches the
      caller's: first PORT_ERROR with the compared value, then
      PORT_FIRST_ERROR with its own contents. */
  lemma PortClearLatches(err: bv64, v: bv64, first: bv64)
    ensures var t := PortClearTrace(err, v, first);
      && (Writes(t, PORT_ERROR) <==> v == err)
      && (Writes(t, PORT_FIRST_ERROR) <==> v == err)
      && (v == err ==> t[3] == Write(PORT_ERROR, err) && t[5] == Write(PORT_FIRST_ERROR, first))
  {
    var t := PortClearTrace(err, v, first);
    if v == err {
      assert IsWriteTo(t[3], PORT_ERROR) && IsWriteTo(t[5], PORT_FIRST_ERROR);
    } else {
      assert t == [DisablePort, Write(PORT_ERROR_MASK, ERROR_MASK), Read(PORT_ERROR, v),
                   Write(PORT_ERROR_MASK, 0), EnablePort];
    }
  }

  /** The window reaches every register of the block. */
  predicate Covers(m: seq<bv64>) {
    PORT_MALFORMED_REQ1 < |m|
  }

  class PortErrorBlock {
    const win: RegisterFile
    /** Whether a port header status word reports the AP6 power state
        (FIELD_GET(PORT_STS_PWR_STATE, sts) == PORT_STS_PWR_STATE_AP6). */
    const isAp6: bv64 -> bool
    /** False while the port is held in reset. */
    var enabled: bool

    ghost predicate Valid()
      reads this, win
    {
      Covers(win.regs)
    }

    /** The block as found when its feature is discovered. */
    constructor (w: RegisterFile, isAp6: bv64 -> bool, enabled: bool)
      requires Covers(w.regs)
      ensures Valid() && win == w && this.isAp6 == isAp6 && this.enabled == enabled
    {
      win := w;
      this.isAp6 := isAp6;
      this.enabled := enabled;
    }

    /** __port_err_mask: every port error masked, or none. */
    method PortErrMask(mask: bool)
      requires Valid()
      modifies win
      ensures Valid()
      ensures win.regs == old(win.regs)[PORT_ERROR_MASK := if mask then ERROR_MASK else 0]
      ensures win.log == Snoc(old(win.log), Write(PORT_ERROR_MASK, if mask then ERROR_MASK else 0))
    {
      win.Writeq(PORT_ERROR_MASK, if mask then ERROR_MASK else 0);
    }

    /** __port_disable, whose own logic is not modelled: `outcome` is what it
        returns.  A successful disable holds the port in reset and is logged;
        a failed one may have left the port in reset or not, so the flag is
        then unknown. */
    method PortDisable(outcome: int) returns (ret: int)
      modifies this, win
      ensures ret == outcome && win.regs == old(win.regs)
      ensures outcome == 0 ==> !enabled && win.log == Snoc(old(win.log), DisablePort)
      ensures outcome != 0 ==> win.log == old(win.log)
    {
      ret := outcome;
      if outcome == 0 {
        win.Record(DisablePort);
        enabled := false;
      } else {
        var left: bool :| true;
        enabled := left;
      }
    }

    /** __port_enable: the port is taken out of reset. */
    method PortEnable()
      modifies this, win
      ensures enabled && win.regs == old(win.regs) && win.log == Snoc(old(win.log), EnablePort)
    {
      win.Record(EnablePort);
      enabled := true;
    }

    /** __port_err_clear.  `hdrSts` is what the port header's status register
        reads and `disableOutcome` what __port_disable returns.  The latch
        write-backs leave the window as it was, so after a disable succeeds
        the mask is the only register that changes, ending at 0. */
    method PortErrClear(err: bv64, hdrSts: bv64, disableOutcome: int) returns (ret: int)
      requires Valid()
      modifies this, win
      ensures Valid()
      ensures isAp6(hdrSts) ==>
        ret == -EBUSY && enabled == old(enabled) && win.log == old(win.log) && win.regs == old(win.regs)
      ensures !isAp6(hdrSts) && disableOutcome != 0 ==>
        ret == disableOutcome && win.log == old(win.log) && win.regs == old(win.regs)
      ensures !isAp6(hdrSts) && disableOutcome == 0 ==>
        var v := old(win.regs)[PORT_ERROR];
        && ret == (if v == err then 0 else -EINVAL)
        && enabled
        && win.log == PortClearLog(old(win.log), err, v, old(win.regs)[PORT_FIRST_ERROR])
        && win.regs == old(win.regs)[PORT_ERROR_MASK := 0]
    {
      if isAp6(hdrSts) {
        return -EBUSY;
      }
      ret := PortDisable(disableOutcome);
      if ret != 0 {
        return ret;
      }
      PortErrMask(true);
      var v := win.Readq(PORT_ERROR);
      ghost var masked := win.regs;
      if v == err {
        win.Writeq(PORT_ERROR, v);
        assert win.regs == masked;
        v := win.WriteBack(PORT_FIRST_ERROR);
      } else {
        ret := -EINVAL;
      }
      PortErrMask(false);
      PortEnable();
    }

    /** clear_store of the port errors group: `input` is the parse of the
        written text, `count` its length. */
    method ClearStore(input: Option<bv64>, hdrSts: bv64, disableOutcome: int, count: nat) returns (ret: int)
      requires Valid()
      modifies this, win
      ensures Valid()
      ensures input.None? ==>
        ret == -EINVAL && enabled == old(enabled) && win.log == old(win.log) && win.regs == old(win.regs)
      ensures input.Some? && isAp6(hdrSts) ==>
        ret == -EBUSY && enabled == old(enabled) && win.log == old(win.log) && win.regs == old(win.regs)
      ensures input.Some? && !isAp6(hdrSts) && disableOutcome != 0 ==>
        ret == disableOutcome && win.log == old(win.log) && win.regs == old(win.regs)
      ensures input.Some? && !isAp6(hdrSts) && disableOutcome == 0 ==>
        var v := old(win.regs)[PORT_ERROR];
        && ret == (if v == input.value then count else -EINVAL)
        && enabled
        && win.log == PortClearLog(old(win.log), input.value, v, old(win.regs)[PORT_FIRST_ERROR])
        && win.regs == old(win.regs)[PORT_ERROR_MASK := 0]
    {
      if input.None? {
        return -EINVAL;
      }
      var r := PortErrClear(input.value, hdrSts, disableOutcome);
      ret := if r != 0 then r else count;
    }

    /** The mask write of port_err_init: every port error unmasked. */
    method PortErrInit()
      requires Valid()
      modifies win
      ensures Valid()
      ensures win.regs == old(win.regs)[PORT_ERROR_MASK := 0] && win.regs[PORT_ERROR_MASK] == 0
      ensures win.log == Snoc(old(win.log), Write(PORT_ERROR_MASK, 0))
    {
      PortErrMask(false);
    }

    /** first_malformed_req_show: both words read, REQ0 first, and reported
        with REQ1 as the high half. */
    method FirstMalformedReqShow() returns (r: bv128)
      requires Valid()
      modifies win
      ensures Valid() && win.regs == old(win.regs)
      ensures (r >> 64) as bv64 == win.regs[PORT_MALFORMED_REQ1]
      ensures (r & LOW_WORD) as bv64 == win.regs[PORT_MALFORMED_REQ0]
      ensures win.log == Snoc(Snoc(old(win.log), Read(PORT_MALFORMED_REQ0, win.regs[PORT_MALFORMED_REQ0])),
                              Read(PORT_MALFORMED_REQ1, win.regs[PORT_MALFORMED_REQ1]))
    {
      var req0 := win.Readq(PORT_MALFORMED_REQ0);
      var req1 := win.Readq(PORT_MALFORMED_REQ1);
      r := MalformedReq(req0, req1);
    }
  }
}
