// The global error block of the FPGA Management Engine (FME): the FME error
// latch with its first/next-error registers, the two PCIe link error
// sub-blocks, the RAS non-fatal and catastrophic-fatal status registers and
// the RAS error-injection register.  All of them sit in one register window
// and are serialised by one device lock; each store method below is one
// locked sequence.

module FmeError {
  import opened Mmio
  import opened Errno

  // Register indices in the global error feature's window (byte offset / 8).
  const FME_ERROR_MASK: nat := 1         // 0x08
  const FME_ERROR: nat := 2              // 0x10
  const PCIE0_ERROR_MASK: nat := 3       // 0x18
  const PCIE0_ERROR: nat := 4            // 0x20
  const PCIE1_ERROR_MASK: nat := 5       // 0x28
  const PCIE1_ERROR: nat := 6            // 0x30
  const FME_FIRST_ERROR: nat := 7        // 0x38
  const FME_NEXT_ERROR: nat := 8         // 0x40
  const RAS_NONFAT_ERROR_MASK: nat := 9  // 0x48
  const RAS_NONFAT_ERROR: nat := 10      // 0x50
  const RAS_CATFAT_ERROR_MASK: nat := 11 // 0x58
  const RAS_CATFAT_ERROR: nat := 12      // 0x60
  const RAS_ERROR_INJECT: nat := 13      // 0x68

  /** The management-bus parity error bit, BIT_ULL(6). */
  const MBP_ERROR: bv64 := 1 << 6
  /** GENMASK_ULL(2, 0): the fault-injection selector field. */
  const INJECT_ERROR_MASK: bv64 := 0x7

  /** The two PCIe link error sub-blocks, each a mask and a status register. */
  datatype PcieLink = Pcie0 | Pcie1 {
    function MaskOffset(): nat {
      match this
      case Pcie0 => PCIE0_ERROR_MASK
      case Pcie1 => PCIE1_ERROR_MASK
    }
    function StatusOffset(): nat {
      match this
      case Pcie0 => PCIE0_ERROR
      case Pcie1 => PCIE1_ERROR
    }
  }

  /** The value FME_ERROR_MASK holds outside a clear: everything unmasked,
      except that revision 0 of the feature keeps MBP_ERROR masked. */
  function SteadyErrorMask(revision: nat): (m: bv64)
    ensures m & !MBP_ERROR == 0
    ensures m == MBP_ERROR <==> revision == 0
    ensures m == 0 <==> revision != 0
  {
    if revision != 0 then 0 else MBP_ERROR
  }

  /** The selector has no bit outside GENMASK(2, 0). */
  predicate InjectSelectorOk(sel: bv8)
    ensures InjectSelectorOk(sel) <==> sel <= 7
  {
    (sel as bv64) & !INJECT_ERROR_MASK == 0
  }

  /** FIELD_GET(INJECT_ERROR_MASK, v): the fault-injection selector of the
      inject register's contents. */
  function InjectField(v: bv64): (r: bv64)
    ensures r <= 7
    ensures r & INJECT_ERROR_MASK == v & INJECT_ERROR_MASK
  {
    v & INJECT_ERROR_MASK
  }

  /** The register value inject_error_store writes: the selector field
      replaced by `sel`, every other bit as it was. */
  function InjectMerge(v: bv64, sel: bv8): (r: bv64)
    requires InjectSelectorOk(sel)
    ensures r & !INJECT_ERROR_MASK == v & !INJECT_ERROR_MASK
    ensures InjectField(r) == sel as bv64
  {
    (v & !INJECT_ERROR_MASK) | ((sel as bv64) & INJECT_ERROR_MASK)
  }

  // The register traffic of each sequence, as a function of the
  // caller's value and of the values the reads return.

  /** pcie0_errors_store / pcie1_errors_store, after a successful parse of `val`;
      `v` is what the status register reads. */
  function PcieClearTrace(link: PcieLink, val: bv64, v: bv64): (t: seq<Event>)
    ensures |t| == if val == v then 4 else 3
    ensures t[0] == Write(link.MaskOffset(), ALL_ONES) && t[1] == Read(link.StatusOffset(), v)
    ensures t[|t| - 1] == Write(link.MaskOffset(), 0)
  {
    [Write(link.MaskOffset(), ALL_ONES), Read(link.StatusOffset(), v)]
    + (if val == v then [Write(link.StatusOffset(), v)] else [])
    + [Write(link.MaskOffset(), 0)]
  }

  /** clear_store, after a successful parse of `val`; `v`, `first` and `next`
      are what FME_ERROR, FME_FIRST_ERROR and FME_NEXT_ERROR read. */
  function ClearTrace(revision: nat, val: bv64, v: bv64, first: bv64, next: bv64): (t: seq<Event>)
    ensures |t| == if val == v then 8 else 3
    ensures t[0] == Write(FME_ERROR_MASK, ALL_ONES) && t[1] == Read(FME_ERROR, v)
    ensures t[|t| - 1] == Write(FME_ERROR_MASK, SteadyErrorMask(revision))
  {
    [Write(FME_ERROR_MASK, ALL_ONES), Read(FME_ERROR, v)]
    + (if val == v then
         [Write(FME_ERROR, v),
          Read(FME_FIRST_ERROR, first), Write(FME_FIRST_ERROR, first),
          Read(FME_NEXT_ERROR, next), Write(FME_NEXT_ERROR, next)]
       else [])
    + [Write(FME_ERROR_MASK, SteadyErrorMask(revision))]
  }

  /** inject_error_store for an accepted selector; `v` is what RAS_ERROR_INJECT reads. */
  function InjectTrace(v: bv64, sel: bv8): (t: seq<Event>)
    requires InjectSelectorOk(sel)
    ensures |t| == 2 && t[0] == Read(RAS_ERROR_INJECT, v)
    ensures t[1].Write? && t[1].off == RAS_ERROR_INJECT && InjectField(t[1].value) == sel as bv64
  {
    [Read(RAS_ERROR_INJECT, v), Write(RAS_ERROR_INJECT, InjectMerge(v, sel))]
  }

  /** fme_error_enable. */
  function EnableTrace(revision: nat): (t: seq<Event>)
    ensures |t| == 5 && t[0] == Write(FME_ERROR_MASK, SteadyErrorMask(revision))
    ensures forall i :: 1 <= i < |t| ==> t[i].Write? && t[i].value == 0
  {
    [Write(FME_ERROR_MASK, SteadyErrorMask(revision)),
     Write(PCIE0_ERROR_MASK, 0), Write(PCIE1_ERROR_MASK, 0),
     Write(RAS_NONFAT_ERROR_MASK, 0), Write(RAS_CATFAT_ERROR_MASK, 0)]
  }

  // The same sequences as the methods below append them to the block's log,
  // one step at a time; each appends exactly its trace.

  function PcieClearLog(l: Log, link: PcieLink, val: bv64, v: bv64): (r: Log)
    ensures r.Snoc? && r.last == Write(link.MaskOffset(), 0)
  {
    var masked := Snoc(Snoc(l, Write(link.MaskOffset(), ALL_ONES)), Read(link.StatusOffset(), v));
    var cleared := if val == v then Snoc(masked, Write(link.StatusOffset(), v)) else masked;
    Snoc(cleared, Write(link.MaskOffset(), 0))
  }

  lemma PcieClearLogEvents(l: Log, link: PcieLink, val: bv64, v: bv64)
    ensures Events(PcieClearLog(l, link, val, v)) == Events(l) + PcieClearTrace(link, val, v)
  {
    var masked := Snoc(Snoc(l, Write(link.MaskOffset(), ALL_ONES)), Read(link.StatusOffset(), v));
    assert Events(masked) == Events(l) + [Write(link.MaskOffset(), ALL_ONES), Read(link.StatusOffset(), v)];
  }

  function ClearLog(l: Log, revision: nat, val: bv64, v: bv64, first: bv64, next: bv64): (r: Log)
    ensures r.Snoc? && r.last == Write(FME_ERROR_MASK, SteadyErrorMask(revision))
  {
    var masked := Snoc(Snoc(l, Write(FME_ERROR_MASK, ALL_ONES)), Read(FME_ERROR, v));
    var cleared := if val == v then
        Snoc(Snoc(Snoc(Snoc(Snoc(masked, Write(FME_ERROR, v)),
          Read(FME_FIRST_ERROR, first)), Write(FME_FIRST_ERROR, first)),
          Read(FME_NEXT_ERROR, next)), Write(FME_NEXT_ERROR, next))
      else masked;
    Snoc(cleared, Write(FME_ERROR_MASK, SteadyErrorMask(revision)))
  }

  lemma ClearLogEvents(l: Log, revision: nat, val: bv64, v: bv64, first: bv64, next: bv64)
    ensures Events(ClearLog(l, revision, val, v, first, next))
         == Events(l) + ClearTrace(revision, val, v, first, next)
  {
    var masked := Snoc(Snoc(l, Write(FME_ERROR_MASK, ALL_ONES)), Read(FME_ERROR, v));
    assert Events(masked) == Events(l) + [Write(FME_ERROR_MASK, ALL_ONES), Read(FME_ERROR, v)];
    if val == v {
      var c1 := Snoc(Snoc(masked, Write(FME_ERROR, v)), Read(FME_FIRST_ERROR, first));
      assert Events(c1) == Events(masked) + [Write(FME_ERROR, v), Read(FME_FIRST_ERROR, first)];
      var c2 := Snoc(Snoc(c1, Write(FME_FIRST_ERROR, first)), Read(FME_NEXT_ERROR, next));
      assert Events(c2) == Events(c1) + [Write(FME_FIRST_ERROR, first), Read(FME_NEXT_ERROR, next)];
    }
  }

  function InjectLog(l: Log, v: bv64, sel: bv8): (r: Log)
    requires InjectSelectorOk(sel)
    ensures r.Snoc? && r.last.Write? && r.last.off == RAS_ERROR_INJECT
    ensures InjectField(r.last.value) == sel as bv64
  {
    Snoc(Snoc(l, Read(RAS_ERROR_INJECT, v)), Write(RAS_ERROR_INJECT, InjectMerge(v, sel)))
  }

  lemma InjectLogEvents(l: Log, v: bv64, sel: bv8)
    requires InjectSelectorOk(sel)
    ensures Events(InjectLog(l, v, sel)) == Events(l) + InjectTrace(v, sel)
  {
  }

  function EnableLog(l: Log, revision: nat): (r: Log)
    ensures r.Snoc? && r.last == Write(RAS_CATFAT_ERROR_MASK, 0)
  {
    Snoc(Snoc(Snoc(Snoc(Snoc(l, Write(FME_ERROR_MASK, SteadyErrorMask(revision))),
      Write(PCIE0_ERROR_MASK, 0)), Write(PCIE1_ERROR_MASK, 0)),
      Write(RAS_NONFAT_ERROR_MASK, 0)), Write(RAS_CATFAT_ERROR_MASK, 0))
  }

  lemma EnableLogEvents(l: Log, revision: nat)
    ensures Events(EnableLog(l, revision)) == Events(l) + EnableTrace(revision)
  {
    var l2 := Snoc(Snoc(l, Write(FME_ERROR_MASK, SteadyErrorMask(revision))), Write(PCIE0_ERROR_MASK, 0));
    assert Events(l2) == Events(l) + [Write(FME_ERROR_MASK, SteadyErrorMask(revision)), Write(PCIE0_ERROR_MASK, 0)];
    var l4 := Snoc(Snoc(l2, Write(PCIE1_ERROR_MASK, 0)), Write(RAS_NONFAT_ERROR_MASK, 0));
    assert Events(l4) == Events(l2) + [Write(PCIE1_ERROR_MASK, 0), Write(RAS_NONFAT_ERROR_MASK, 0)];
  }

  /** A PCIe clear first masks its link, reads the status only while masked,
      writes the status exactly when the caller's value matches and then only
      with the value just read, writes nothing but its own two registers, and
      leaves the link unmasked. */
  lemma PcieClearProtocol(link: PcieLink, val: bv64, v: bv64)
    ensures var t := PcieClearTrace(link, val, v);
      && t[0] == Write(link.MaskOffset(), ALL_ONES)
      && WritesOnly(t, {link.MaskOffset(), link.StatusOffset()})
      && (Writes(t, link.StatusOffset()) <==> val == v)
      && WritesBackReads(t, {link.StatusOffset()})
      && ReadsUnderMask(t, link.MaskOffset(), {link.StatusOffset()})
      && LastWrite(t, link.MaskOffset()) == Some(0)
  {
    var mask, status := link.MaskOffset(), link.StatusOffset();
    var pre := [Write(mask, ALL_ONES)];
    var body := [Read(status, v)] + (if val == v then [Write(status, v)] else []);
    var post := [Write(mask, 0)];
    var t := PcieClearTrace(link, val, v);
    assert t == pre + body + post;
    MaskedWindow(pre, body, post, mask, {status});
    if val == v {
      assert t == [Write(mask, ALL_ONES), Read(status, v), Write(status, v), Write(mask, 0)];
      assert IsWriteTo(t[2], status);
    } else {
      assert t == [Write(mask, ALL_ONES), Read(status, v), Write(mask, 0)];
    }
  }

  /** A clear of FME_ERROR first masks the block, reads only while masked,
      writes FME_ERROR, FME_FIRST_ERROR and FME_NEXT_ERROR each only with the
      value just read from it, writes nothing but those and the mask, and
      leaves the revision's steady mask. */
  lemma ClearProtocol(revision: nat, val: bv64, v: bv64, first: bv64, next: bv64)
    ensures var t := ClearTrace(revision, val, v, first, next);
      && t[0] == Write(FME_ERROR_MASK, ALL_ONES)
      && WritesOnly(t, {FME_ERROR_MASK, FME_ERROR, FME_FIRST_ERROR, FME_NEXT_ERROR})
      && WritesBackReads(t, {FME_ERROR, FME_FIRST_ERROR, FME_NEXT_ERROR})
      && ReadsUnderMask(t, FME_ERROR_MASK, {FME_ERROR, FME_FIRST_ERROR, FME_NEXT_ERROR})
      && LastWrite(t, FME_ERROR_MASK) == Some(SteadyErrorMask(revision))
  {
    var pre := [Write(FME_ERROR_MASK, ALL_ONES)];
    var latches := if val == v then
        [Write(FME_ERROR, v),
         Read(FME_FIRST_ERROR, first), Write(FME_FIRST_ERROR, first),
         Read(FME_NEXT_ERROR, next), Write(FME_NEXT_ERROR, next)]
      else [];
    var body := [Read(FME_ERROR, v)] + latches;
    var post := [Write(FME_ERROR_MASK, SteadyErrorMask(revision))];
    var t := ClearTrace(revision, val, v, first, next);
    assert t == pre + body + post;
    MaskedWindow(pre, body, post, FME_ERROR_MASK, {FME_ERROR, FME_FIRST_ERROR, FME_NEXT_ERROR});
    if val == v {
      assert t == [Write(FME_ERROR_MASK, ALL_ONES), Read(FME_ERROR, v), Write(FME_ERROR, v),
                   Read(FME_FIRST_ERROR, first), Write(FME_FIRST_ERROR, first),
                   Read(FME_NEXT_ERROR, next), Write(FME_NEXT_ERROR, next),
                   Write(FME_ERROR_MASK, SteadyErrorMask(revision))];
    } else {
      assert t == [Write(FME_ERROR_MASK, ALL_ONES), Read(FME_ERROR, v),
                   Write(FME_ERROR_MASK, SteadyErrorMask(revision))];
    }
  }

  /** The latches are written exactly when the caller's value matches: then
      FME_ERROR with the compared value, followed by FME_FIRST_ERROR and
      FME_NEXT_ERROR, each with its own contents. */
  lemma ClearLatches(revision: nat, val: bv64, v: bv64, first: bv64, next: bv64)
    ensures var t := ClearTrace(revision, val, v, first, next);
      && (Writes(t, FME_ERROR) <==> val == v)
      && (Writes(t, FME_FIRST_ERROR) <==> val == v)
      && (Writes(t, FME_NEXT_ERROR) <==> val == v)
      && (val == v ==> t[2] == Write(FME_ERROR, val) && t[4] == Write(FME_FIRST_ERROR, first)
                       && t[6] == Write(FME_NEXT_ERROR, next))
  {
    var t := ClearTrace(revision, val, v, first, next);
    if val == v {
      assert IsWriteTo(t[2], FME_ERROR) && IsWriteTo(t[4], FME_FIRST_ERROR) && IsWriteTo(t[6], FME_NEXT_ERROR);
    } else {
      assert |t| == 3;
    }
  }

  /** An accepted injection reads the register and writes it once, with only
      the selector field changed, set to the selector. */
  lemma InjectProtocol(v: bv64, sel: bv8)
    requires InjectSelectorOk(sel)
    ensures var t := InjectTrace(v, sel);
      && WritesOnly(t, {RAS_ERROR_INJECT})
      && LastWrite(t, RAS_ERROR_INJECT).Some?
      && var w := LastWrite(t, RAS_ERROR_INJECT).value;
         w & !INJECT_ERROR_MASK == v & !INJECT_ERROR_MASK && InjectField(w) == sel as bv64
  {
    var t := InjectTrace(v, sel);
    assert t[..1] == [Read(RAS_ERROR_INJECT, v)];
  }

  /** Enabling writes only the five mask registers: FME_ERROR_MASK to the
      revision's steady value, the other four to 0. */
  lemma EnableProtocol(revision: nat)
    ensures var t := EnableTrace(revision);
      && WritesOnly(t, {FME_ERROR_MASK, PCIE0_ERROR_MASK, PCIE1_ERROR_MASK,
                        RAS_NONFAT_ERROR_MASK, RAS_CATFAT_ERROR_MASK})
      && LastWrite(t, FME_ERROR_MASK) == Some(SteadyErrorMask(revision))
      && LastWrite(t, PCIE0_ERROR_MASK) == Some(0)
      && LastWrite(t, PCIE1_ERROR_MASK) == Some(0)
      && LastWrite(t, RAS_NONFAT_ERROR_MASK) == Some(0)
      && LastWrite(t, RAS_CATFAT_ERROR_MASK) == Some(0)
  {
    var t := EnableTrace(revision);
    LastWriteAt(t, 0, FME_ERROR_MASK);
    LastWriteAt(t, 1, PCIE0_ERROR_MASK);
    LastWriteAt(t, 2, PCIE1_ERROR_MASK);
    LastWriteAt(t, 3, RAS_NONFAT_ERROR_MASK);
    LastWriteAt(t, 4, RAS_CATFAT_ERROR_MASK);
  }

  /** fme_error_enable leaves FME_ERROR_MASK at the value a clear leaves it at,
      on either outcome of the clear. */
  lemma EnableMatchesClear(revision: nat, val: bv64, v: bv64, first: bv64, next: bv64)
    ensures LastWrite(EnableTrace(revision), FME_ERROR_MASK)
         == LastWrite(ClearTrace(revision, val, v, first, next), FME_ERROR_MASK)
  {
    EnableProtocol(revision);
    ClearProtocol(revision, val, v, first, next);
  }

  /** No sequence of this block writes the RAS non-fatal or catastrophic-fatal
      status registers: there is no clear for them. */
  lemma RasErrorsReadOnly(link: PcieLink, val: bv64, v: bv64, revision: nat,
                          first: bv64, next: bv64, inj: bv64, sel: bv8)
    requires InjectSelectorOk(sel)
    ensures forall t :: t in [PcieClearTrace(link, val, v), ClearTrace(revision, val, v, first, next),
                             InjectTrace(inj, sel), EnableTrace(revision)] ==>
      !Writes(t, RAS_NONFAT_ERROR) && !Writes(t, RAS_CATFAT_ERROR)
  {
  }

  /** The five mask registers fme_error_enable drives. */
  const ERROR_MASKS: set<nat> := {FME_ERROR_MASK, PCIE0_ERROR_MASK, PCIE1_ERROR_MASK,
                                  RAS_NONFAT_ERROR_MASK, RAS_CATFAT_ERROR_MASK}

  /** The window reaches every register of the block. */
  predicate Covers(m: seq<bv64>) {
    RAS_ERROR_INJECT < |m|
  }

  /** Every mask register holds its steady-state value. */
  predicate SteadyMasks(m: seq<bv64>, revision: nat) {
    && Covers(m)
    && m[FME_ERROR_MASK] == SteadyErrorMask(revision)
    && m[PCIE0_ERROR_MASK] == 0
    && m[PCIE1_ERROR_MASK] == 0
    && m[RAS_NONFAT_ERROR_MASK] == 0
    && m[RAS_CATFAT_ERROR_MASK] == 0
  }

  class FmeErrorBlock {
    const win: RegisterFile
    /** The feature revision (dfl_feature_revision of the window). */
    const revision: nat

    ghost predicate Valid()
      reads this, win
    {
      Covers(win.regs)
    }

    /** The block as found when its feature is discovered. */
    constructor (w: RegisterFile, revision: nat)
      requires Covers(w.regs)
      ensures Valid() && win == w && this.revision == revision
    {
      win := w;
      this.revision := revision;
    }

    /** fme_error_enable: drive every mask register to its steady state;
        nothing else changes. */
    method FmeErrorEnable()
      requires Valid()
      modifies win
      ensures Valid()
      ensures win.log == EnableLog(old(win.log), revision)
      ensures SteadyMasks(win.regs, revision)
      ensures |win.regs| == |old(win.regs)|
      ensures forall o :: 0 <= o < |win.regs| && o !in ERROR_MASKS ==> win.regs[o] == old(win.regs)[o]
    {
      win.Writeq(FME_ERROR_MASK, SteadyErrorMask(revision));
      win.Writeq(PCIE0_ERROR_MASK, 0);
      win.Writeq(PCIE1_ERROR_MASK, 0);
      win.Writeq(RAS_NONFAT_ERROR_MASK, 0);
      win.Writeq(RAS_CATFAT_ERROR_MASK, 0);
    }

    /** The locked body shared by pcie0_errors_store and pcie1_errors_store:
        `input` is the parse of the written text, `count` its length.  The
        status write-back of the value just read leaves the window as it was,
        so the link's mask is the only register that changes. */
    method PcieErrorsStore(link: PcieLink, input: Option<bv64>, count: nat) returns (ret: int)
      requires Valid()
      modifies win
      ensures Valid()
      ensures input.None? ==> ret == -EINVAL && win.log == old(win.log) && win.regs == old(win.regs)
      ensures input.Some? ==>
        var v := old(win.regs)[link.StatusOffset()];
        && ret == (if input.value == v then count else -EINVAL)
        && win.log == PcieClearLog(old(win.log), link, input.value, v)
        && win.regs == old(win.regs)[link.MaskOffset() := 0]
    {
      if input.None? {
        return -EINVAL;
      }
      var val := input.value;
      var err := 0;
      win.Writeq(link.MaskOffset(), ALL_ONES);
      var v := win.Readq(link.StatusOffset());
      if val == v {
        win.Writeq(link.StatusOffset(), v);
      } else {
        err := -EINVAL;
      }
      win.Writeq(link.MaskOffset(), 0);
      ret := if err != 0 then err else count;
    }

    /** pcie0_errors_store */
    method Pcie0ErrorsStore(input: Option<bv64>, count: nat) returns (ret: int)
      requires Valid()
      modifies win
      ensures Valid()
      ensures input.None? ==> ret == -EINVAL && win.log == old(win.log) && win.regs == old(win.regs)
      ensures input.Some? ==>
        var v := old(win.regs)[PCIE0_ERROR];
        && ret == (if input.value == v then count else -EINVAL)
        && win.log == PcieClearLog(old(win.log), Pcie0, input.value, v)
        && win.regs == old(win.regs)[PCIE0_ERROR_MASK := 0]
    {
      ret := PcieErrorsStore(Pcie0, input, count);
    }

    /** pcie1_errors_store */
    method Pcie1ErrorsStore(input: Option<bv64>, count: nat) returns (ret: int)
      requires Valid()
      modifies win
      ensures Valid()
      ensures input.None? ==> ret == -EINVAL && win.log == old(win.log) && win.regs == old(win.regs)
      ensures input.Some? ==>
        var v := old(win.regs)[PCIE1_ERROR];
        && ret == (if input.value == v then count else -EINVAL)
        && win.log == PcieClearLog(old(win.log), Pcie1, input.value, v)
        && win.regs == old(win.regs)[PCIE1_ERROR_MASK := 0]
    {
      ret := PcieErrorsStore(Pcie1, input, count);
    }

    /** clear_store of the fme-errors group.  The latch write-backs leave the
        window as it was, so FME_ERROR_MASK is the only register that
        changes, ending at the revision's steady mask. */
    method ClearStore(input: Option<bv64>, count: nat) returns (ret: int)
      requires Valid()
      modifies win
      ensures Valid()
      ensures input.None? ==> ret == -EINVAL && win.log == old(win.log) && win.regs == old(win.regs)
      ensures input.Some? ==>
        var v := old(win.regs)[FME_ERROR];
        && ret == (if input.value == v then count else -EINVAL)
        && win.log == ClearLog(old(win.log), revision, input.value, v,
                               old(win.regs)[FME_FIRST_ERROR], old(win.regs)[FME_NEXT_ERROR])
        && win.regs == old(win.regs)[FME_ERROR_MASK := SteadyErrorMask(revision)]
    {
      if input.None? {
        return -EINVAL;
      }
      var val := input.value;
      var err := 0;
      win.Writeq(FME_ERROR_MASK, ALL_ONES);
      var v := win.Readq(FME_ERROR);
      ghost var masked := win.regs;
      if val == v {
        win.Writeq(FME_ERROR, v);
        assert win.regs == masked;
        v := win.WriteBack(FME_FIRST_ERROR);
        v := win.WriteBack(FME_NEXT_ERROR);
      } else {
        err := -EINVAL;
      }
      // Workaround: MBP_ERROR stays masked on revision 0.
      win.Writeq(FME_ERROR_MASK, SteadyErrorMask(revision));
      ret := if err != 0 then err else count;
    }

    /** inject_error_store: `input` is the parse of the written text as a u8. */
    method InjectErrorStore(input: Option<bv8>, count: nat) returns (ret: int)
      requires Valid()
      modifies win
      ensures Valid()
      ensures input.None? || !InjectSelectorOk(input.value) ==>
        ret == -EINVAL && win.log == old(win.log) && win.regs == old(win.regs)
      ensures input.Some? && InjectSelectorOk(input.value) ==>
        var v := old(win.regs)[RAS_ERROR_INJECT];
        && ret == count
        && win.log == InjectLog(old(win.log), v, input.value)
        && win.regs == old(win.regs)[RAS_ERROR_INJECT := InjectMerge(v, input.value)]
    {
      if input.None? {
        return -EINVAL;
      }
      var sel := input.value;
      if !InjectSelectorOk(sel) {
        return -EINVAL;
      }
      var v := win.Readq(RAS_ERROR_INJECT);
      v := InjectMerge(v, sel);
      win.Writeq(RAS_ERROR_INJECT, v);
      ret := count;
    }

    /** inject_error_show: the selector field of the inject register. */
    method InjectErrorShow() returns (r: bv64)
      requires Valid()
      modifies win
      ensures Valid()
      ensures win.regs == old(win.regs) && r == InjectField(win.regs[RAS_ERROR_INJECT])
      ensures win.log == Snoc(old(win.log), Read(RAS_ERROR_INJECT, win.regs[RAS_ERROR_INJECT]))
    {
      var v := win.Readq(RAS_ERROR_INJECT);
      r := InjectField(v);
    }
  }

  /** Storing an accepted selector and then showing the field gives the
      selector back. */
  method InjectRoundTrip(b: FmeErrorBlock, sel: bv8, count: nat) returns (ret: int, shown: bv64)
    requires b.Valid() && InjectSelectorOk(sel)
    modifies b.win
    ensures b.Valid()
    ensures ret == count && shown == sel as bv64
  {
    ret := b.InjectErrorStore(Some(sel), count);
    shown := b.InjectErrorShow();
  }
}
