/** The BANcode diagnostic ring: the last eight raised codes. */
module Diag {
  import opened Bytes

  type Code = nat

  const BANCODE_START: Code := 0x0011_A000
  const BANCODE_END: Code := 0x0011_A7FF
  const COMCODE_START: Code := 0x0011_AC00
  const COMCODE_END: Code := 0x0011_ADFF
  const TRAP_MIN: Code := 0x7FFF_FFF0
  const TRAP_MAX: Code := 0x7FFF_FFFE
  const INVALID: Code := 0x7FFF_FFFF
  const TRAP_SLOTS: nat := 15
  const CODES_PER_TRAP: nat := 128

  const COM_VOLUME_PROBE_OK: Code := 0x0011_AC20
  const COM_CATALOG_ENUM_OK: Code := 0x0011_AC21
  const COM_KERNEL_LOAD_OK: Code := 0x0011_AC22
  const WARN_VOLUME_DIRTY: Code := 0x0011_AA20
  const WARN_VOLUME_LOCKED: Code := 0x0011_AA21
  const WARN_STATE_ERROR: Code := 0x0011_AA22
  const WARN_VERSION_MISMATCH: Code := 0x0011_AA23
  const SOFT_NO_VOLUME: Code := 0x0011_AEA0
  const SOFT_IS_USFS: Code := 0x0011_AEA1
  const SOFT_NOT_A_FILE: Code := 0x0011_AEA2
  const SOFT_KERNEL_TOO_SMALL: Code := 0x0011_AEA3
  const SOFT_KERNEL_TOO_LARGE: Code := 0x0011_AEA4
  const SOFT_ENCRYPTED_VOLUME: Code := 0x0011_AEA5
  const SOFT_BAD_BLOCK_MAP: Code := 0x0011_AEA6
  const BAN_SB_MAGIC: Code := 0x0011_A2E0
  const BAN_SB_CHECKSUM: Code := 0x0011_A2E1
  const BAN_INODE_CHECKSUM: Code := 0x0011_A2E2
  const BAN_CATALOG_CHECKSUM: Code := 0x0011_A2E3
  const BAN_IO_ERROR: Code := 0x0011_A2E4
  const BAN_LOAD_FAILED: Code := 0x0011_A2E5

  predicate IsBancode(code: Code) {
    BANCODE_START <= code <= BANCODE_END
  }

  predicate IsSuccess(code: Code) {
    COMCODE_START <= code <= COMCODE_END
  }

  /** The Kernel Security Trap governing a fatal code, or INVALID. */
  function ToTrap(code: Code): Code {
    if !IsBancode(code) then INVALID
    else
      var slot := (code - BANCODE_START) / CODES_PER_TRAP;
      if slot >= TRAP_SLOTS then INVALID else TRAP_MIN + slot
  }

  function TrapRange(trap: Code): Option<(Code, Code)> {
    if TRAP_MIN <= trap <= TRAP_MAX then
      var lo := BANCODE_START + (trap - TRAP_MIN) * CODES_PER_TRAP;
      Some((lo, lo + (CODES_PER_TRAP - 1)))
    else None
  }

  /** A trap governs a code exactly when the code lies in the trap's cluster. */
  lemma TrapGovernsItsRange(code: Code, trap: Code)
    requires TRAP_MIN <= trap <= TRAP_MAX
    ensures ToTrap(code) == trap <==> (var range := TrapRange(trap).value; range.0 <= code <= range.1)
  {
  }

  // ---- the ring ------------------------------------------------------------------

  const DIAG_MAX: nat := 8

  /** `fired` is declared by the record but no code ever sets it. */
  datatype Record = Record(fired: bool, slot: nat, trap: Code, code: Code)

  const BLANK := Record(false, 0, 0, 0)

  function RecordOf(code: Code): Record {
    var trap := ToTrap(code);
    Record(false, if trap != INVALID then trap - TRAP_MIN else TRAP_SLOTS, trap, code)
  }

  /** The record of a code names the cluster of 128 codes it lies in, and slot 15 with no trap outside the 15
      clusters. */
  lemma RecordsExactly(code: Code)
    ensures var r, k := RecordOf(code), code as int - 0x0011_A000;
      && r.code == code && !r.fired && r.slot <= 15
      && (r.slot == 15 <==> k < 0 || k >= 15 * 128)
      && (r.slot < 15 ==> r.slot * 128 <= k < r.slot * 128 + 128 && r.trap == 0x7FFF_FFF0 + r.slot)
      && (r.slot == 15 ==> r.trap == 0x7FFF_FFFF)
  {
  }

  /** No fault, warning or refusal counts as success; the three completion codes and the handoff code do. */
  lemma OnlyCompletionSucceeds(code: Code)
    ensures IsSuccess(code) <==> 0x0011_AC00 <= code < 0x0011_AE00
    ensures code in {COM_VOLUME_PROBE_OK, COM_CATALOG_ENUM_OK, COM_KERNEL_LOAD_OK} ==> IsSuccess(code)
    ensures IsSuccess(code) ==> !IsBancode(code)
    ensures IsSuccess(code) ==>
      code !in {SOFT_NO_VOLUME, SOFT_IS_USFS, SOFT_NOT_A_FILE, SOFT_KERNEL_TOO_SMALL, SOFT_KERNEL_TOO_LARGE,
                SOFT_ENCRYPTED_VOLUME, SOFT_BAD_BLOCK_MAP, WARN_VOLUME_DIRTY, WARN_VOLUME_LOCKED, WARN_STATE_ERROR,
                WARN_VERSION_MISMATCH}
  {
  }

  datatype Ring = Ring(slots: seq<Record>, count: nat, head: nat)

  /** The ring after raising `codes`: code number `j` sits in slot `j % 8` while it is among the last eight. */
  ghost predicate HoldsTail(r: Ring, codes: seq<Code>) {
    && |r.slots| == DIAG_MAX
    && r.count == Min(|codes|, DIAG_MAX)
    && r.head == |codes| % DIAG_MAX
    && forall j :: 0 <= j < |codes| && |codes| - DIAG_MAX <= j ==> r.slots[j % DIAG_MAX] == RecordOf(codes[j])
  }

  class DiagRing {
    const ring: array<Record>
    var count: nat
    var head: nat
    ghost var history: seq<Code>

    ghost predicate Valid()
      reads this, ring
    {
      ring.Length == DIAG_MAX && HoldsTail(Ring(ring[..], count, head), history)
    }

    constructor ()
      ensures Valid() && history == [] && fresh(ring)
    {
      ring := new Record[DIAG_MAX](_ => BLANK);
      count, head := 0, 0;
      history := [];
    }

    method Raise(code: Code)
      requires Valid()
      modifies this, ring
      ensures Valid() && history == old(history) + [code]
    {
      ghost var before := Ring(ring[..], count, head);
      ring[head] := RecordOf(code);
      head := (head + 1) % DIAG_MAX;
      if count < DIAG_MAX {
        count := count + 1;
      }
      history := history + [code];
      RaiseKeepsTail(before, history[..|history| - 1], code, Ring(ring[..], count, head));
    }

    method Last() returns (d: Option<Record>)
      requires Valid()
      ensures d == if history == [] then None else Some(RecordOf(history[|history| - 1]))
    {
      if count == 0 {
        return None;
      }
      var idx := (head + DIAG_MAX - 1) % DIAG_MAX;
      ReadBack(Ring(ring[..], count, head), history, 0);
      return Some(ring[idx]);
    }

    method Count() returns (n: nat)
      requires Valid()
      ensures n == Min(|history|, DIAG_MAX)
    {
      n := count;
    }
  }

  lemma OtherSlot(j: nat, n: nat)
    requires n - DIAG_MAX < j < n
    ensures j % DIAG_MAX != n % DIAG_MAX
  {
  }

  /** Overwriting the slot at the head drops only the oldest code. */
  lemma TailSlot(r: Ring, codes: seq<Code>, code: Code, j: nat)
    requires HoldsTail(r, codes) && j <= |codes| && |codes| + 1 - DIAG_MAX <= j
    ensures r.slots[r.head := RecordOf(code)][j % DIAG_MAX] == RecordOf((codes + [code])[j])
  {
    hide RecordOf;
    if j < |codes| {
      OtherSlot(j, |codes|);
      assert r.slots[j % DIAG_MAX] == RecordOf(codes[j]);
    }
  }

  lemma RaiseKeepsTail(r: Ring, codes: seq<Code>, code: Code, r': Ring)
    requires HoldsTail(r, codes)
    requires r'
         == Ring(r.slots[r.head := RecordOf(code)], if r.count < DIAG_MAX then r.count + 1 else r.count,
                 (r.head + 1) % DIAG_MAX)
    ensures HoldsTail(r', codes + [code])
  {
    hide RecordOf;
    var all := codes + [code];
    forall j | 0 <= j < |all| && |all| - DIAG_MAX <= j
      ensures r'.slots[j % DIAG_MAX] == RecordOf(all[j])
    {
      TailSlot(r, codes, code, j);
    }
  }

  /** Reading `k` slots back from the head finds the `k`-th most recent code. */
  lemma ReadBack(r: Ring, codes: seq<Code>, k: nat)
    requires HoldsTail(r, codes) && k < r.count
    ensures r.slots[(r.head + DIAG_MAX - 1 - k) % DIAG_MAX] == RecordOf(codes[|codes| - 1 - k])
  {
    hide RecordOf;
    assert (r.head + DIAG_MAX - 1 - k) % DIAG_MAX == (|codes| - 1 - k) % DIAG_MAX;
  }
}
