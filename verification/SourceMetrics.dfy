/** Per-source counters, the rolling log of slot outcomes and the lead-time samples. */
module Metrics {
  import opened DecoderModel
  import opened Reservoir

  const SLOT_LOG_CAP: nat := 500
  const LEAD_TIME_MAX_US: int := 2_000_000
  const LEAD_TIME_MIN_US: int := -500_000

  /** The lead-time counters of a source. `samples` is every sample ever pushed to its reservoir.
      `wins` is a u64 in the program; here it is exact, so a program value is `wins` modulo 2^64. */
  datatype Leads = Leads(count: nat, wins: int, sumUs: int, backfill: nat, samples: seq<int>)

  const NoLeads: Leads := Leads(0, 0, 0, 0, [])

  predicate LeadInRange(us: int) {
    LEAD_TIME_MIN_US <= us <= LEAD_TIME_MAX_US
  }

  /** `record_lead_time_us`. */
  function RecordLead(l: Leads, us: int): (r: Leads) {
    if us > LEAD_TIME_MAX_US then l.(backfill := l.backfill + 1)
    else if us < LEAD_TIME_MIN_US then l
    else l.(count := l.count + 1, wins := l.wins + if us > 0 then 1 else 0,
            sumUs := l.sumUs + us, samples := l.samples + [us])
  }

  /** The outcomes of slot `s` in a log, in order. */
  ghost function OutcomesIn(log: seq<SlotStats>, s: nat): (r: seq<SlotStats>) {
    if log == [] then [] else
    OutcomesIn(log[..|log| - 1], s) + if log[|log| - 1].slot == s then [log[|log| - 1]] else []
  }

  lemma OutcomesInAppend(log: seq<SlotStats>, x: SlotStats, s: nat)
    ensures OutcomesIn(log + [x], s) == OutcomesIn(log, s) + if x.slot == s then [x] else []
  {
    assert (log + [x])[..|log + [x]| - 1] == log;
  }

  class SourceMetrics {
    var slotsAttempted: nat
    var slotsComplete: nat
    var slotsPartial: nat
    var slotsDropped: nat
    var coverageShredsSeen: nat
    var coverageShredsExpected: nat
    var fecRecoveredShreds: nat
    var txsDecoded: int
    var slotLog: seq<SlotStats>
    ghost var slotHistory: seq<SlotStats>

    var leadTimeCount: nat
    var leadWins: int
    var leadTimeSumUs: int
    var backfillCount: nat
    const leadTimeReservoir: SampleRing

    /** The log holds the last SLOT_LOG_CAP outcomes, in order. */
    ghost predicate LogValid()
      reads this`slotLog, this`slotHistory
    {
      slotLog == LastOf(slotHistory, SLOT_LOG_CAP)
    }

    ghost function LeadTimes(): (r: Leads)
      reads this, leadTimeReservoir
    {
      Leads(leadTimeCount, leadWins, leadTimeSumUs, backfillCount, leadTimeReservoir.history)
    }

    constructor ()
      ensures LogValid() && slotHistory == []
      ensures slotsAttempted == slotsComplete == slotsPartial == slotsDropped == 0
      ensures coverageShredsSeen == coverageShredsExpected == fecRecoveredShreds == 0 && txsDecoded == 0
      ensures LeadTimes() == NoLeads && leadTimeReservoir.Valid()
      ensures fresh(leadTimeReservoir) && fresh(leadTimeReservoir.buf)
    {
      slotsAttempted, slotsComplete, slotsPartial, slotsDropped := 0, 0, 0, 0;
      coverageShredsSeen, coverageShredsExpected, fecRecoveredShreds, txsDecoded := 0, 0, 0, 0;
      slotLog, slotHistory := [], [];
      leadTimeCount, leadWins, leadTimeSumUs, backfillCount := 0, 0, 0, 0;
      leadTimeReservoir := new SampleRing();
    }

    method PushSlotStats(stats: SlotStats)
      requires LogValid()
      modifies this`slotLog, this`slotHistory
      ensures LogValid() && slotHistory == old(slotHistory) + [stats]
      ensures |slotLog| == if |slotHistory| < 500 then |slotHistory| else 500
    {
      if |slotLog| >= SLOT_LOG_CAP {
        slotLog := slotLog[1..];
      }
      slotLog := slotLog + [stats];
      slotHistory := slotHistory + [stats];
    }

    method RecordLeadTimeUs(us: int)
      requires leadTimeReservoir.Valid()
      modifies this`leadTimeCount, this`leadWins, this`leadTimeSumUs, this`backfillCount
      modifies leadTimeReservoir, leadTimeReservoir.buf
      ensures leadTimeReservoir.Valid()
      ensures LeadTimes() == RecordLead(old(LeadTimes()), us)
    {
      if us > LEAD_TIME_MAX_US {
        backfillCount := backfillCount + 1;
        return;
      }
      if us < LEAD_TIME_MIN_US {
        return;
      }
      leadTimeCount := leadTimeCount + 1;
      if us > 0 {
        leadWins := leadWins + 1;
      }
      leadTimeSumUs := leadTimeSumUs + us;
      leadTimeReservoir.Push(us);
    }
  }
}
