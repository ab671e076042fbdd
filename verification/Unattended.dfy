/** A board left alone: it boots again and again, nobody talks to it and no image
    confirms itself. After at most seven boots that change the record, nothing changes
    any more. */
module Unattended {
  import opened Bytes
  import opened Flash
  import opened Metadata
  import opened Protocol
  import opened Boot
  import opened System

  /** One boot with a healthy controller. */
  function BootOnce(mem: Memory): Memory { Decide(Fs(mem, [])).0.mem }

  function Verdict(mem: Memory): Mode { Decide(Fs(mem, [])).1 }

  function Boots(mem: Memory, n: nat): Memory
    decreases n
  {
    if n == 0 then mem else Boots(BootOnce(mem), n - 1)
  }

  function Filled(info: SlotInfo): nat { if info.state == STATE_EMPTY then 0 else 1 }

  /** Slots that are not empty first, attempts left second. */
  function Measure(rec: Record): nat {
    4 * (Filled(rec.slotA) + Filled(rec.slotB))
    + (if rec.fails < MAX_BOOT_FAILURES then MAX_BOOT_FAILURES - rec.fails else 0)
  }

  function MeasureOf(mem: Memory): nat {
    match Read(mem) case None => 0 case Some(rec) => Measure(rec)
  }

  /** A boot leaves memory as it is, or it lowers the measure by one and keeps a slot
      that is not empty. */
  lemma BootDescends(mem: Memory)
    requires HasRoom(mem)
    ensures BootOnce(mem) == mem
            || (MeasureOf(BootOnce(mem)) == MeasureOf(mem) - 1 && 4 <= MeasureOf(BootOnce(mem))
                && Counter(BootOnce(mem)) == Counter(mem) + 1)
  {
    hide Read, Metadata.Write, Intact, LooksBootable, Stamped;
    ReadWellFormed(mem);
    var fs := Fs(mem, []);
    if Read(mem).Some? {
      var meta := Read(mem).value;
      if meta.Slot(meta.active).state == STATE_TESTING {
        if meta.fails >= MAX_BOOT_FAILURES {
          if CanRollBack(mem, meta) {
            CrashAtomic(fs, RolledBack(meta));
            WriteOkIff(fs, RolledBack(meta));
            StampCounts(mem, RolledBack(meta));
          }
        } else if Intact(mem, meta, meta.active) {
          CrashAtomic(fs, OneMoreFailure(meta));
          WriteOkIff(fs, OneMoreFailure(meta));
          StampCounts(mem, OneMoreFailure(meta));
        }
      }
    }
  }

  lemma MeasureBound(mem: Memory)
    ensures MeasureOf(mem) <= 11
  {
    hide Read;
  }

  lemma {:induction false} Fixed(mem: Memory, n: nat)
    requires BootOnce(mem) == mem
    ensures Boots(mem, n) == mem
    decreases n
  {
    hide BootOnce;
    if n > 0 {
      Fixed(mem, n - 1);
    }
  }

  lemma {:induction false} BootsCompose(mem: Memory, m: nat, n: nat)
    ensures Boots(mem, m + n) == Boots(Boots(mem, m), n)
    decreases m
  {
    hide BootOnce;
    if m > 0 {
      BootsCompose(BootOnce(mem), m - 1, n);
    }
  }

  /** A boot that writes nothing, and what it decides. */
  ghost predicate Settled(mem: Memory) {
    && BootOnce(mem) == mem
    && (Verdict(mem) == Wait()
        || exists slot: byte :: Verdict(mem) == ListenThenJump(slot) && Runnable(mem, slot)
                                && Read(mem).value.Slot(slot).state == STATE_VALID)
  }

  /** A boot that changes nothing jumps to a confirmed image or waits. */
  lemma UnchangedIsSettled(mem: Memory)
    requires HasRoom(mem) && BootOnce(mem) == mem
    ensures Settled(mem)
  {
    hide Read, Metadata.Write, Intact, LooksBootable, Stamped;
    BootPreparesRunnable(Fs(mem, []));
    ReadWellFormed(mem);
    if Read(mem).Some? {
      var meta := Read(mem).value;
      if meta.Slot(meta.active).state == STATE_TESTING {
        TrialsChangeMemory(mem, meta);
      } else if meta.Slot(meta.active).state == STATE_VALID && Intact(mem, meta, meta.active) {
        assert Verdict(mem) == ListenThenJump(meta.active) && Runnable(mem, meta.active);
      }
    }
  }

  /** On trial, a boot that jumps or prepares a jump has changed the record. */
  lemma TrialsChangeMemory(mem: Memory, meta: Record)
    requires HasRoom(mem) && Read(mem) == Some(meta) && meta.Slot(meta.active).state == STATE_TESTING
    ensures BootOnce(mem) == mem ==> Verdict(mem) == Wait()
  {
    hide Read, Metadata.Write, Intact, LooksBootable, Stamped;
    ReadWellFormed(mem);
    var fs := Fs(mem, []);
    if meta.fails >= MAX_BOOT_FAILURES {
      if CanRollBack(mem, meta) {
        CrashAtomic(fs, RolledBack(meta));
        WriteOkIff(fs, RolledBack(meta));
        StampCounts(mem, RolledBack(meta));
      }
    } else if Intact(mem, meta, meta.active) {
      CrashAtomic(fs, OneMoreFailure(meta));
      WriteOkIff(fs, OneMoreFailure(meta));
      StampCounts(mem, OneMoreFailure(meta));
    }
  }

  /** `left` bounds the record changes still possible. */
  lemma {:induction false} SettlesWithin(mem: Memory, left: nat) returns (k: nat)
    requires Counter(mem) + left + 1 <= MAX_COUNTER && MeasureOf(mem) <= 4 + left
    ensures k <= left && Settled(Boots(mem, k))
    ensures forall i | 0 <= i < k :: Boots(mem, i + 1) != Boots(mem, i)
    decreases left
  {
    hide BootOnce, Settled, MeasureOf, Counter;
    CountLeavesRoom(mem);
    BootDescends(mem);
    if BootOnce(mem) == mem {
      UnchangedIsSettled(mem);
      k := 0;
    } else {
      assert left > 0;
      var j := SettlesWithin(BootOnce(mem), left - 1);
      k := j + 1;
      forall i | 0 <= i < k
        ensures Boots(mem, i + 1) != Boots(mem, i)
      {
        if i == 0 {
          assert Boots(mem, 1) == Boots(BootOnce(mem), 0);
        } else {
          assert Boots(BootOnce(mem), (i - 1) + 1) != Boots(BootOnce(mem), i - 1);
        }
      }
    }
  }

  /** From any flash contents: there is a number of boots, at most seven, each of which
      changes the record, after which memory never changes again and every boot either
      jumps to the same confirmed, intact image or waits for the host. */
  lemma UnattendedSettles(mem: Memory) returns (k: nat)
    requires Counter(mem) + 8 <= MAX_COUNTER
    ensures k <= 7
    ensures forall i | 0 <= i < k :: Boots(mem, i + 1) != Boots(mem, i)
    ensures Settled(Boots(mem, k)) && forall n: nat | n >= k :: Boots(mem, n) == Boots(mem, k)
  {
    hide BootOnce, Settled, MeasureOf, Counter;
    MeasureBound(mem);
    k := SettlesWithin(mem, 7);
    forall n: nat | n >= k
      ensures Boots(mem, n) == Boots(mem, k)
    {
      BootsCompose(mem, k, n - k);
      SettledIsFixed(Boots(mem, k));
      Fixed(Boots(mem, k), n - k);
    }
  }

  lemma SettledIsFixed(mem: Memory)
    requires Settled(mem)
    ensures BootOnce(mem) == mem
  {
  }

  // ---- The bound is reached ----

  /** The active image is on trial with `used` trials behind it; it and the description of
      the other slot are intact. */
  ghost predicate OnTrialAt(mem: Memory, slot: byte, used: nat, fallback: byte) {
    && slot <= SLOT_B && Read(mem).Some?
    && var rec := Read(mem).value;
       && rec.active == slot && rec.fails as int == used
       && rec.Slot(slot).state == STATE_TESTING && Intact(mem, rec, slot)
       && rec.Slot(Other(slot)).state == fallback
       && (fallback != STATE_EMPTY ==> Intact(mem, rec, Other(slot)))
  }

  lemma OneMoreTrial(mem: Memory, slot: byte, used: nat, fallback: byte)
    requires OnTrialAt(mem, slot, used, fallback) && used < 3 && Counter(mem) < MAX_COUNTER
    ensures OnTrialAt(BootOnce(mem), slot, used + 1, fallback) && Counter(BootOnce(mem)) == Counter(mem) + 1
  {
    hide Read, Metadata.Write, ImageFits, Stamped;
    ReadWellFormed(mem);
    CountLeavesRoom(mem);
    var fs, meta := Fs(mem, []), Read(mem).value;
    var out := OneMoreFailure(meta);
    CrashAtomic(fs, out);
    WriteOkIff(fs, out);
    StampCounts(mem, out);
    MetaWriteEffect(fs, out);
    ImageFitsStable(mem, BootOnce(mem), meta.Slot(slot), slot);
    ImageFitsStable(mem, BootOnce(mem), meta.Slot(Other(slot)), Other(slot));
  }

  lemma OneRollback(mem: Memory, slot: byte)
    requires OnTrialAt(mem, slot, 3, STATE_TESTING) && Counter(mem) < MAX_COUNTER
    ensures OnTrialAt(BootOnce(mem), Other(slot), 0, STATE_EMPTY) && Counter(BootOnce(mem)) == Counter(mem) + 1
  {
    hide Read, Metadata.Write, ImageFits, Stamped, LooksBootable;
    ReadWellFormed(mem);
    CountLeavesRoom(mem);
    var fs, meta := Fs(mem, []), Read(mem).value;
    var out := RolledBack(meta);
    CrashAtomic(fs, out);
    WriteOkIff(fs, out);
    StampCounts(mem, out);
    MetaWriteEffect(fs, out);
    ImageFitsStable(mem, BootOnce(mem), meta.Slot(Other(slot)), Other(slot));
  }

  lemma TrialMeasure(mem: Memory, slot: byte, used: nat, fallback: byte)
    requires OnTrialAt(mem, slot, used, fallback) && used <= 3
    ensures MeasureOf(mem) == (if fallback == STATE_EMPTY then 4 else 8) + 3 - used
  {
    hide Read, ImageFits;
  }

  lemma {:induction false} Trials(mem: Memory, slot: byte, fallback: byte, n: nat)
    requires OnTrialAt(mem, slot, 0, fallback) && n <= 3 && Counter(mem) + n <= MAX_COUNTER
    ensures OnTrialAt(Boots(mem, n), slot, n, fallback) && Counter(Boots(mem, n)) == Counter(mem) + n
  {
    hide OnTrialAt, BootOnce, Counter;
    if n > 0 {
      Trials(mem, slot, fallback, n - 1);
      BootsCompose(mem, n - 1, 1);
      assert Boots(Boots(mem, n - 1), 1) == BootOnce(Boots(mem, n - 1));
      OneMoreTrial(Boots(mem, n - 1), slot, n - 1, fallback);
    }
  }

  /** With two intact images on trial and none of the trials used, the `n`-th boot still
      lowers the measure, for every `n` up to seven: three trials, a rollback, and three
      trials of the other image. */
  lemma SevenBoots(mem: Memory, slot: byte, n: nat)
    requires OnTrialAt(mem, slot, 0, STATE_TESTING) && n <= 7 && Counter(mem) + 7 <= MAX_COUNTER
    ensures MeasureOf(Boots(mem, n)) == 11 - n
    ensures n == 7 ==> Verdict(Boots(mem, 7)) == Wait()
  {
    hide OnTrialAt, BootOnce, Counter, MeasureOf, Boots, Verdict;
    if n <= 3 {
      Trials(mem, slot, STATE_TESTING, n);
      TrialMeasure(Boots(mem, n), slot, n, STATE_TESTING);
    } else {
      Trials(mem, slot, STATE_TESTING, 3);
      var spent := Boots(mem, 3);
      OneRollback(spent, slot);
      Trials(BootOnce(spent), Other(slot), STATE_EMPTY, n - 4);
      BootsCompose(mem, 3, n - 3);
      FirstBoot(spent, n - 4);
      TrialMeasure(Boots(mem, n), Other(slot), n - 4, STATE_EMPTY);
      if n == 7 {
        SpentWaits(Boots(mem, 7), Other(slot));
      }
    }
  }

  lemma FirstBoot(mem: Memory, n: nat)
    ensures Boots(mem, n + 1) == Boots(BootOnce(mem), n)
  {
  }

  lemma SpentWaits(mem: Memory, slot: byte)
    requires OnTrialAt(mem, slot, 3, STATE_EMPTY)
    ensures Verdict(mem) == Wait() && BootOnce(mem) == mem
  {
    hide Read, ImageFits, Metadata.Write;
  }
}
