# FPGA DFL error-clear protocols in Dafny

This project models the error-reporting register protocols of two Linux FPGA
Device Feature List (DFL) drivers:

- the FME global-error block of `drivers/fpga/dfl-fme-error.c` (FME is the FPGA
  Management Engine);
- the accelerator-port error block of `drivers/fpga/dfl-afu-error.c`.

Each block is a window of 64-bit registers that latch fault conditions. Each
locked sequence of `readq`/`writeq` calls the drivers perform is one method, and
so are the unlocked FME mask setup and the unlocked injection show.

- `mmio.dfy` (module `Mmio`) holds the register window `RegisterFile`:
  - a sequence of `bv64` indexed by byte offset / 8;
  - a log of every read of the block's own window (with the value returned),
    every write (with the value stored), every successful port disable and
    every port enable.

  It also holds the analysis predicates over logs: `Writes`, `WritesOnly`,
  `LastWrite`, `ReadsUnderMask` ("every latch read happens while the mask holds
  all-ones") and `WritesBackReads` ("every latch write stores the value just
  read from it"). Module `Errno` holds `EBUSY` and `EINVAL`.
- `fme_error.dfy` (module `FmeError`) has:
  - the register offsets and bit constants;
  - the PCIe link compare-and-clear, the FME error compare-and-clear with the
    revision-0 `MBP_ERROR` workaround, and the fault-injection
    read-modify-write with its show;
  - the construction-time mask setup, as methods of class `FmeErrorBlock`.
- `afu_error.dfy` (module `AfuError`) has the port error block, class
  `PortErrorBlock`:
  - the mask write;
  - the clear transaction (AP6 refusal, disable, mask, compare-and-clear,
    unmask, enable);
  - the `clear` attribute's argument gate;
  - the init unmask;
  - the 128-bit malformed-request composition.

Every store method states its whole effect, with its error cases:

- the value it returns;
- the new contents of the window;
- the log it leaves, built by a log function (`PcieClearLog`, `ClearLog`,
  `InjectLog`, `EnableLog`, `PortClearLog`).

A companion lemma (`…LogEvents`) shows that each log function appends exactly
one transaction trace (`PcieClearTrace`, `ClearTrace`, `InjectTrace`,
`EnableTrace`, `PortClearTrace`) to the old log. The protocol lemmas then prove,
over all inputs, what the driver promises about each trace.

A write has memory semantics in the window: the window holds the last value
the driver stored. The window is therefore not a device. A status register
written back with the value just read keeps that value in the window, and
nothing is claimed about what the hardware would read after a clear.

The code differs from what one might expect in these places. The model follows
the code:

- When `__port_disable` fails, `__port_err_clear` returns its error at once and
  never re-enables the port (`dfl-afu-error.c:70-72`). On that path the model's
  `PortErrClear` leaves the log and the window unchanged and promises nothing
  about whether the port is still in reset.
- One might expect a mismatch to leave every register as found. The code
  still masks and then unmasks, so the mask register ends at its steady value
  (0, or `MBP_ERROR` on FME revision 0), whatever it held before. The methods
  state exactly that: the window is the old one with the mask replaced.
- The FME show functions read without the device lock, while the port's
  `errors_show`, `first_error_show` and `first_malformed_req_show` take it
  (`dfl-afu-error.c:118-120`, `135-137`, `153-156`); its `revision_show` does
  not. The lock is not modelled (see
  below).

## Model

| member | source | states |
|---|---|---|
| FmeError.SteadyErrorMask | drivers/fpga/dfl-fme-error.c:286-288 | the restored FME error mask is 0 exactly when the revision is non-zero, exactly `MBP_ERROR` (bit 6) exactly when the revision is 0, and never has a bit other than `MBP_ERROR` |
| FmeError.InjectSelectorOk | drivers/fpga/dfl-fme-error.c:189-190 | a u8 selector is accepted exactly when it has no bit outside `GENMASK(2,0)`, i.e. exactly when it is at most 7 |
| FmeError.InjectField | drivers/fpga/dfl-fme-error.c:170-173 | the shown field is at most 7 and agrees with the register on bits 2..0 |
| FmeError.InjectMerge | drivers/fpga/dfl-fme-error.c:195-198 | the value written keeps every bit of the register outside bits 2..0, and its field is exactly the selector |
| FmeError.PcieClearTrace | drivers/fpga/dfl-fme-error.c:79-87 | the register traffic of a PCIe clear: four steps on a match and three otherwise, starting with the all-ones mask write and the status read, ending with the mask write of 0 |
| FmeError.ClearTrace | drivers/fpga/dfl-fme-error.c:273-288 | the register traffic of `clear_store`: eight steps on a match and three otherwise, starting with the all-ones mask write and the `FME_ERROR` read, ending with the write of the revision's steady mask |
| FmeError.InjectTrace | drivers/fpga/dfl-fme-error.c:195-198 | the register traffic of an accepted injection: the read of `RAS_ERROR_INJECT`, then one write to it whose field is the selector |
| FmeError.EnableTrace | drivers/fpga/dfl-fme-error.c:318-323 | the register traffic of `fme_error_enable`: five writes, the steady `FME_ERROR_MASK` first and then four writes of 0 |
| FmeError.PcieClearLog | drivers/fpga/dfl-fme-error.c:79-87 | the log a PCIe clear leaves: its most recent step is the unmask; that it appends exactly `PcieClearTrace` is `PcieClearLogEvents` |
| FmeError.ClearLog | drivers/fpga/dfl-fme-error.c:273-288 | the log `clear_store` leaves: its most recent step is the write of the steady mask; that it appends exactly `ClearTrace` is `ClearLogEvents` |
| FmeError.InjectLog | drivers/fpga/dfl-fme-error.c:195-198 | the log an accepted injection leaves: its most recent step writes `RAS_ERROR_INJECT` with the selector in the field; that it appends exactly `InjectTrace` is `InjectLogEvents` |
| FmeError.EnableLog | drivers/fpga/dfl-fme-error.c:318-323 | the log `fme_error_enable` leaves: its most recent step is the write of 0 to `RAS_CATFAT_ERROR_MASK`; that it appends exactly `EnableTrace` is `EnableLogEvents` |
| FmeError.PcieClearLogEvents | drivers/fpga/dfl-fme-error.c:79-87 | the log a PCIe clear leaves is the old log followed by exactly `PcieClearTrace` |
| FmeError.ClearLogEvents | drivers/fpga/dfl-fme-error.c:273-288 | the log `clear_store` leaves is the old log followed by exactly `ClearTrace` |
| FmeError.InjectLogEvents | drivers/fpga/dfl-fme-error.c:195-198 | the log an accepted injection leaves is the old log followed by exactly `InjectTrace` |
| FmeError.EnableLogEvents | drivers/fpga/dfl-fme-error.c:318-323 | the log `fme_error_enable` leaves is the old log followed by exactly `EnableTrace` |
| FmeError.PcieClearProtocol | drivers/fpga/dfl-fme-error.c:79-87 | a PCIe clear first writes its mask all-ones and reads the status only while masked. It writes only its own mask and status. It writes the status exactly when the caller's value equals the value read, and then only with that value. Its last mask write is 0 |
| FmeError.ClearProtocol | drivers/fpga/dfl-fme-error.c:273-288 | `clear_store` first writes `FME_ERROR_MASK` all-ones and reads `FME_ERROR`, `FME_FIRST_ERROR` and `FME_NEXT_ERROR` only while masked. It writes only those four registers, each latch only with the value just read from it. Its last mask write is the revision's steady mask |
| FmeError.ClearLatches | drivers/fpga/dfl-fme-error.c:275-284 | each of the three latches is written exactly when the caller's value matches `FME_ERROR`: `FME_ERROR` with the compared value, then `FME_FIRST_ERROR` and `FME_NEXT_ERROR`, each with its own contents |
| FmeError.InjectProtocol | drivers/fpga/dfl-fme-error.c:195-198 | an accepted injection writes only `RAS_ERROR_INJECT`. Its write keeps every bit outside the field and sets the field to the selector |
| FmeError.EnableProtocol | drivers/fpga/dfl-fme-error.c:313-324 | `fme_error_enable` writes only the five mask registers, leaving `FME_ERROR_MASK` at the revision's steady mask and the PCIe0, PCIe1, RAS non-fatal and RAS cat-fatal masks at 0 |
| FmeError.EnableMatchesClear | drivers/fpga/dfl-fme-error.c:317-319 | `fme_error_enable` leaves `FME_ERROR_MASK` at the same value `clear_store` leaves it at, on either outcome of the clear |
| FmeError.RasErrorsReadOnly | drivers/fpga/dfl-fme-error.c:135-159 | none of the block's sequences (the PCIe clear, `clear_store`, an accepted injection, `fme_error_enable`) writes `RAS_NONFAT_ERROR` or `RAS_CATFAT_ERROR`: they are only ever read, and there is no clear for them |
| FmeError.FmeErrorBlock.FmeErrorEnable | drivers/fpga/dfl-fme-error.c:313-324 | after the enable every mask register holds its steady value and every register outside the five masks is unchanged; the log gains `EnableTrace` |
| FmeError.FmeErrorBlock.PcieErrorsStore | drivers/fpga/dfl-fme-error.c:73-89 | a failed parse returns `-EINVAL` with no register access. Otherwise it returns `count` exactly when the value matches the status (else `-EINVAL`). The log gains `PcieClearTrace`, and the window is as found except that the link's mask holds 0 |
| FmeError.FmeErrorBlock.Pcie0ErrorsStore | drivers/fpga/dfl-fme-error.c:63-90 | `pcie0_errors_store`: the above for `PCIE0_ERROR_MASK`/`PCIE0_ERROR` |
| FmeError.FmeErrorBlock.Pcie1ErrorsStore | drivers/fpga/dfl-fme-error.c:105-132 | `pcie1_errors_store`: the above for `PCIE1_ERROR_MASK`/`PCIE1_ERROR` |
| FmeError.FmeErrorBlock.ClearStore | drivers/fpga/dfl-fme-error.c:258-291 | a failed parse returns `-EINVAL` with no register access. Otherwise it returns `count` exactly when the value matches `FME_ERROR` (else `-EINVAL`). The log gains `ClearTrace`, and the window is as found except that `FME_ERROR_MASK` holds the revision's steady mask |
| FmeError.FmeErrorBlock.InjectErrorStore | drivers/fpga/dfl-fme-error.c:176-202 | a failed parse or a selector with a bit outside bits 2..0 returns `-EINVAL` with no register access. Otherwise it returns `count`, the log gains `InjectTrace`, and only `RAS_ERROR_INJECT` changes, to the merged value |
| FmeError.FmeErrorBlock.InjectErrorShow | drivers/fpga/dfl-fme-error.c:161-174 | reads `RAS_ERROR_INJECT` once and returns its bits 2..0; the window is unchanged |
| FmeError.InjectRoundTrip | drivers/fpga/dfl-fme-error.c:170-198 | storing an accepted selector and then showing the field returns `count` and exactly the selector |
| AfuError.MalformedReq | drivers/fpga/dfl-afu-error.c:154-159 | the 128-bit request has `PORT_MALFORMED_REQ1` as its high 64 bits and `PORT_MALFORMED_REQ0` as its low 64 bits |
| AfuError.MalformedReqInjective | drivers/fpga/dfl-afu-error.c:158-159 | two reports are equal exactly when both words are equal |
| AfuError.PortClearTrace | drivers/fpga/dfl-afu-error.c:70-93 | the traffic of a port clear after a successful disable: eight steps on a match and five otherwise, starting with the disable, the all-ones mask write and the `PORT_ERROR` read, ending with the unmask and the enable |
| AfuError.PortClearLog | drivers/fpga/dfl-afu-error.c:70-93 | the log a port clear leaves: its two most recent steps are the unmask and then the enable; that it appends exactly `PortClearTrace` is `PortClearLogEvents` |
| AfuError.PortClearLogEvents | drivers/fpga/dfl-afu-error.c:70-93 | the log a port clear leaves after a successful disable is the old log followed by exactly `PortClearTrace` |
| AfuError.PortClearQuiesced | drivers/fpga/dfl-afu-error.c:69-93 | the clear starts with the port disable and ends with the port enable, with only register accesses between them. The unmask is the step just before the enable |
| AfuError.PortClearProtocol | drivers/fpga/dfl-afu-error.c:75-90 | the clear writes only `PORT_ERROR_MASK`, `PORT_ERROR` and `PORT_FIRST_ERROR`, each latch only with the value just read from it. Its last mask write is 0 |
| AfuError.PortClearMasked | drivers/fpga/dfl-afu-error.c:74-84 | all errors are masked (all-ones) before anything is read, and both latches are read only while masked |
| AfuError.PortClearLatches | drivers/fpga/dfl-afu-error.c:78-87 | `PORT_ERROR` and `PORT_FIRST_ERROR` are written exactly when the value read equals `err`: `PORT_ERROR` with `err`, then `PORT_FIRST_ERROR` with its own contents |
| AfuError.PortErrorBlock.PortErrMask | drivers/fpga/dfl-afu-error.c:30-37 | `PORT_ERROR_MASK` becomes all-ones when masking and 0 otherwise; nothing else changes |
| AfuError.PortErrorBlock.PortDisable | drivers/fpga/dfl-afu-error.c:70-72 | the call's result is handed back as is, which the clear then propagates on any non-zero value; a zero result is logged as the disable and leaves the port in reset, and after a non-zero result the window and log are unchanged and the reset state is unknown |
| AfuError.PortErrorBlock.PortEnable | drivers/fpga/dfl-afu-error.c:92-93 | the port leaves reset and the enable is logged |
| AfuError.PortErrorBlock.PortErrClear | drivers/fpga/dfl-afu-error.c:40-96 | AP6 returns `-EBUSY` and a failed disable returns its error; neither writes a register or logs a disable or enable, AP6 leaves the reset state as found, and after a failed disable it is unknown. After a successful disable it returns 0 exactly when `PORT_ERROR` equals `err` (else `-EINVAL`). The log gains `PortClearTrace`, the port ends enabled, and the window is as found except that the mask holds 0 |
| AfuError.PortErrorBlock.ClearStore | drivers/fpga/dfl-afu-error.c:163-178 | a failed parse returns `-EINVAL` with no access. Otherwise it returns the clear's outcome, or `count` in place of 0, with the clear's effect on each path |
| AfuError.PortErrorBlock.PortErrInit | drivers/fpga/dfl-afu-error.c:202-204 | init leaves `PORT_ERROR_MASK` at 0 with a single write and changes nothing else |
| AfuError.PortErrorBlock.FirstMalformedReqShow | drivers/fpga/dfl-afu-error.c:143-160 | reads `PORT_MALFORMED_REQ0` then `PORT_MALFORMED_REQ1` and returns them as the high word REQ1 and the low word REQ0 |

## Left out

- The device mutex and concurrency: each locked body is one method, and
  interleavings, including the lock-free FME show functions racing a clear,
  are not modelled.
- sysfs attribute tables and groups, device registration and release,
  allocation, and the `*_init`/`*_uinit` plumbing. Only the mask writes of
  `port_err_init` and the enable setup are kept.
- `kstrtou64`/`kstrtou8` parsing: a store receives the parse as an `Option`,
  and `None` is a malformed literal.
- `sprintf` formatting: shows return the value rather than its text, and the
  malformed request is the 128-bit number whose two 16-digit halves are
  printed.
- `dfl_get_feature_ioaddr_by_id`, `dfl_feature_revision`, `PORT_STS_PWR_STATE`
  and `PORT_STS_PWR_STATE_AP6` are defined in headers that are not part of this
  model:
  - the revision is a constant of `FmeErrorBlock`;
  - the revision read that `dfl_feature_revision` performs inside
    `clear_store`'s locked body (`dfl-fme-error.c:287`) and in
    `fme_error_enable` (`318`) is not logged;
  - the AP6 test is an abstract predicate `isAp6` on the header status word;
  - that word is a parameter of the clear, and its read of the port header is
    not logged.
- The internals of `__port_disable` and `__port_enable`: the disable's return
  value is a parameter, and the enable always succeeds and sets the `enabled`
  flag.
- PortDisable: a failed disable is not logged, and the model chooses the
  port's reset state after it arbitrarily, because the real disable may
  already have put the port in reset before failing; no caller is promised
  either state.
- Device behaviour: write-1-to-clear latches and bits latched
  mid-transaction. The window has memory semantics, and no status value after
  a clear is claimed.
- The raw show functions that only read and print one register
  (`revision_show`, `errors_show`, `first_error_show`, `next_error_show`,
  `pcie0/1_errors_show`, `nonfatal_errors_show`, `catfatal_errors_show`, and
  the port's `errors_show` and `first_error_show`). They compute nothing
  beyond a `Readq`.
- `dev_dbg`/`dev_err` logging.
- The store methods do not model a register window narrower than the block:
  every method requires the window to cover all registers of its block, as a
  discovered feature does.
