// A memory-mapped register window of a DFL feature, as the error drivers see
// it through readq/writeq: a sequence of 64-bit registers, indexed by the
// register's byte offset divided by 8, and an ordered log of everything the
// driver did to the block.  The log holds the register reads (with the value
// returned), the register writes (with the value stored), every successful
// port disable and every port enable, so that orderings such as "masked
// before read" and "unmasked before re-enabled" can be stated for a whole
// transaction.
//
// Writes are given memory semantics: the window holds the last value the driver
// stored, or the window's contents when it was discovered.  What the device
// does with a write (write-1-to-clear latches, bits latched mid-transaction)
// is not part of this model, so a status entry of the window after a clear says
// nothing about what the hardware would read back; the write itself is in
// the log.

module Errno {
  /** Linux error numbers returned (negated) by the drivers. */
  const EBUSY: int := 16
  const EINVAL: int := 22
}

module Mmio {

  datatype Option<T> = None | Some(value: T)

  const ALL_ONES: bv64 := 0xFFFF_FFFF_FFFF_FFFF

  /** One step of a transaction on an error block. */
  datatype Event =
    // `off` is a register index: the byte offset divided by 8
    | Read(off: nat, value: bv64)
    | Write(off: nat, value: bv64)
    | DisablePort   // the port is put in reset (a successful __port_disable)
    | EnablePort    // the port is taken out of reset (__port_enable)

  predicate IsWriteTo(e: Event, off: nat) {
    e.Write? && e.off == off
  }

  /** The driver's log, most recent step last. */
  datatype Log = Empty | Snoc(before: Log, last: Event)

  /** The steps of a log, oldest first. */
  function Events(l: Log): seq<Event> {
    match l
    case Empty => []
    case Snoc(before, e) => Events(before) + [e]
  }

  /** The log writes `off` at least once. */
  ghost predicate Writes(t: seq<Event>, off: nat) {
    exists i :: 0 <= i < |t| && IsWriteTo(t[i], off)
  }

  /** Every write of the log is to an offset in `offs`. */
  ghost predicate WritesOnly(t: seq<Event>, offs: set<nat>) {
    forall i :: 0 <= i < |t| && t[i].Write? ==> t[i].off in offs
  }

  /** The value last written to `off`, if the log writes it at all. */
  function LastWrite(t: seq<Event>, off: nat): Option<bv64>
    decreases |t|
  {
    if t == [] then None
    else if IsWriteTo(t[|t| - 1], off) then Some(t[|t| - 1].value)
    else LastWrite(t[..|t| - 1], off)
  }

  /** There is a last write to `off` exactly when the log writes `off`, and it
      is one of the log's writes to `off`. */
  lemma {:induction false} LastWriteWrites(t: seq<Event>, off: nat)
    ensures LastWrite(t, off).None? <==> !Writes(t, off)
    ensures LastWrite(t, off).Some? ==> Write(off, LastWrite(t, off).value) in t
    decreases |t|
  {
    if t != [] {
      var t' := t[..|t| - 1];
      LastWriteWrites(t', off);
      assert forall i :: 0 <= i < |t'| ==> t'[i] == t[i];
      if !IsWriteTo(t[|t| - 1], off) && LastWrite(t', off).Some? {
        assert Write(off, LastWrite(t', off).value) in t';
      }
    }
  }

  /** A log that writes only `offs` does not write any other offset. */
  lemma WritesOnlyExcludes(t: seq<Event>, offs: set<nat>, off: nat)
    requires WritesOnly(t, offs) && off !in offs
    ensures !Writes(t, off)
  {
  }

  /** Every read of an offset in `offs` happens while `mask` holds all-ones. */
  ghost predicate ReadsUnderMask(t: seq<Event>, mask: nat, offs: set<nat>) {
    forall i :: 0 <= i < |t| && t[i].Read? && t[i].off in offs ==>
      LastWrite(t[..i], mask) == Some(ALL_ONES)
  }

  /** Every write to an offset in `offs` stores back the value read from that
      offset by the step just before it. */
  ghost predicate WritesBackReads(t: seq<Event>, offs: set<nat>) {
    forall i :: 0 <= i < |t| && t[i].Write? && t[i].off in offs ==>
      0 < i && t[i - 1] == Read(t[i].off, t[i].value)
  }

  /** Appending steps that do not write `off` keeps its last written value. */
  lemma {:induction false} LastWriteSkip(a: seq<Event>, b: seq<Event>, off: nat)
    requires forall e :: e in b ==> !IsWriteTo(e, off)
    ensures LastWrite(a + b, off) == LastWrite(a, off)
    decreases |b|
  {
    if b != [] {
      var b' := b[..|b| - 1];
      assert (a + b)[..|a + b| - 1] == a + b';
      assert (a + b)[|a + b| - 1] == b[|b| - 1] && b[|b| - 1] in b;
      LastWriteSkip(a, b', off);
    } else {
      assert a + b == a;
    }
  }

  /** The last write to `off` is the write at `i` when no later step writes `off`. */
  lemma LastWriteAt(t: seq<Event>, i: nat, off: nat)
    requires i < |t| && IsWriteTo(t[i], off)
    requires forall j :: i < j < |t| ==> !IsWriteTo(t[j], off)
    ensures LastWrite(t, off) == Some(t[i].value)
  {
    var a, b := t[..i + 1], t[i + 1..];
    assert t == a + b;
    forall e | e in b ensures !IsWriteTo(e, off) {
      var k :| 0 <= k < |b| && b[k] == e;
      assert b[k] == t[i + 1 + k];
    }
    LastWriteSkip(a, b, off);
  }

  /** The shape shared by every compare-and-clear transaction: a prefix that
      leaves `mask` all-ones and reads nothing, a body that does not write
      `mask`, and a suffix that reads nothing. */
  lemma MaskedWindow(pre: seq<Event>, body: seq<Event>, post: seq<Event>, mask: nat, offs: set<nat>)
    requires LastWrite(pre, mask) == Some(ALL_ONES)
    requires forall e :: e in body ==> !IsWriteTo(e, mask)
    requires forall e :: e in pre + post ==> !e.Read?
    ensures ReadsUnderMask(pre + body + post, mask, offs)
  {
    var t := pre + body + post;
    forall i | 0 <= i < |t| && t[i].Read? && t[i].off in offs
      ensures LastWrite(t[..i], mask) == Some(ALL_ONES)
    {
      assert t[i] !in pre + post;
      var k := i - |pre|;
      assert t[..i] == pre + body[..k];
      forall e | e in body[..k] ensures !IsWriteTo(e, mask) {
        assert e in body;
      }
      LastWriteSkip(pre, body[..k], mask);
    }
  }

  /** The register window of one feature.  The mutex the drivers take around
      each store is not modelled: each store method of a block that uses this
      window performs one whole locked sequence.  FmeErrorEnable and
      InjectErrorShow model code that takes no lock, and the port's mask,
      disable and enable methods are steps inside a sequence. */
  class RegisterFile {
    var regs: seq<bv64>
    var log: Log

    /** The window as found when its feature is discovered. */
    constructor (contents: seq<bv64>)
      ensures regs == contents && Events(log) == []
    {
      regs, log := contents, Empty;
    }

    /** readq(base + off) */
    method Readq(off: nat) returns (v: bv64)
      requires off < |regs|
      modifies this
      ensures regs == old(regs) && v == regs[off] && log == Snoc(old(log), Read(off, v))
    {
      v := regs[off];
      log := Snoc(log, Read(off, v));
    }

    /** writeq(v, base + off) */
    method Writeq(off: nat, v: bv64)
      requires off < |regs|
      modifies this
      ensures |regs| == |old(regs)| && regs == old(regs)[off := v] && log == Snoc(old(log), Write(off, v))
    {
      regs := regs[off := v];
      log := Snoc(log, Write(off, v));
    }

    /** v = readq(base + off); writeq(v, base + off): a register written back
        with its own contents. */
    method WriteBack(off: nat) returns (v: bv64)
      requires off < |regs|
      modifies this
      ensures regs == old(regs) && v == regs[off]
      ensures log == Snoc(Snoc(old(log), Read(off, v)), Write(off, v))
    {
      v := Readq(off);
      Writeq(off, v);
    }

    /** Records a call into the port reset logic. */
    method Record(e: Event)
      requires e.DisablePort? || e.EnablePort?
      modifies this
      ensures regs == old(regs) && log == Snoc(old(log), e)
    {
      log := Snoc(log, e);
    }
  }
}
