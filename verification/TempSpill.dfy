// The temp-spill capacity rule: footprint and free space against thresholds,
// with a latch that emits one finding per breach episode.
module TempSpill {
  import opened Machine
  import opened Sums
  import opened Window
  import Runs

  datatype Config = Config(footprintThresholdBytes: U64, freeThresholdPct: U8)

  datatype BreachReason =
    | Footprint(bytes: U64, thresholdBytes: U64)
    | FreeSpace(freePct: U8, thresholdPct: U8)

  datatype Sample = Sample(footprintBytes: U64, mountTotalBytes: U64, mountAvailableBytes: U64) {
    function FreePct(): U8 {
      if mountTotalBytes == 0 then 100
      else Min(mountAvailableBytes * 100 / mountTotalBytes, U8_MAX)
    }

    function Breaches(cfg: Config): Option<BreachReason> {
      if cfg.footprintThresholdBytes < footprintBytes then
        Some(Footprint(footprintBytes, cfg.footprintThresholdBytes))
      else if 0 < cfg.freeThresholdPct && FreePct() < cfg.freeThresholdPct then
        Some(FreeSpace(FreePct(), cfg.freeThresholdPct))
      else None
    }
  }

  // Neither the rounding of the percentage nor its saturation at 255 moves the
  // threshold: it is crossed exactly when the available share is below it.
  lemma {:induction false} FreePctIsExact(s: Sample, pct: U8)
    requires 0 < s.mountTotalBytes
    ensures s.FreePct() < pct <==> s.mountAvailableBytes * 100 < pct * s.mountTotalBytes
  {
    QuotientAtLeast(s.mountAvailableBytes * 100, s.mountTotalBytes, pct);
  }

  // The percentage itself: 100 on an empty mount, else the floor, at most 255.
  lemma {:induction false} FreePctIs(s: Sample)
    ensures s.mountTotalBytes == 0 ==> s.FreePct() == 100
    ensures 0 < s.mountTotalBytes ==>
              forall p: nat :: p <= s.FreePct() <==> p <= 255 && p * s.mountTotalBytes <= s.mountAvailableBytes * 100
  {
    if 0 < s.mountTotalBytes {
      forall p: nat
        ensures p <= s.FreePct() <==> p <= 255 && p * s.mountTotalBytes <= s.mountAvailableBytes * 100
      {
        QuotientAtLeast(s.mountAvailableBytes * 100, s.mountTotalBytes, p);
      }
    }
  }

  // When a sample breaches, in terms of the bytes alone. A mount of total size
  // zero counts as wholly free, so only a threshold over 100 trips on it. The
  // footprint goes first when both do.
  lemma {:induction false} BreachesIff(s: Sample, cfg: Config)
    ensures s.Breaches(cfg).Some? <==>
            || cfg.footprintThresholdBytes < s.footprintBytes
            || (0 < s.mountTotalBytes && s.mountAvailableBytes * 100 < cfg.freeThresholdPct * s.mountTotalBytes)
            || (s.mountTotalBytes == 0 && 100 < cfg.freeThresholdPct)
    ensures s.Breaches(cfg).Some? ==>
              s.Breaches(cfg).value ==
              if cfg.footprintThresholdBytes < s.footprintBytes
              then Footprint(s.footprintBytes, cfg.footprintThresholdBytes)
              else FreeSpace(s.FreePct(), cfg.freeThresholdPct)
  {
    if 0 < s.mountTotalBytes { FreePctIsExact(s, cfg.freeThresholdPct); }
  }

  // ---- Footprint ---------------------------------------------------------

  // What the directory walk yields; a regular file whose metadata cannot be
  // read has no length.
  datatype WalkEntry = WalkError | NotAFile | RegularFile(len: Option<U64>)

  const SIZE: WalkEntry -> int :=
    (e: WalkEntry) => if e.RegularFile? && e.len.Some? then e.len.value else 0

  method FootprintOf(dirExists: bool, entries: seq<WalkEntry>) returns (total: U64)
    ensures total == if dirExists then Min(Sum(entries, SIZE), U64_MAX) else 0
  {
    total := 0;
    if !dirExists {
      return;
    }
    for i := 0 to |entries|
      invariant total == Min(Sum(entries[..i], SIZE), U64_MAX)
      invariant 0 <= Sum(entries[..i], SIZE)
    {
      SumSnoc(entries[..i], entries[i], SIZE);
      assert entries[..i + 1] == entries[..i] + [entries[i]];
      if entries[i].RegularFile? {
        if entries[i].len.Some? {
          total := SatAdd64(total, entries[i].len.value);
        }
      }
    }
    assert entries[..|entries|] == entries;
  }

  // The order of the walk does not matter, saturated or not.
  lemma {:induction false} FootprintAnyOrder(a: seq<WalkEntry>, b: seq<WalkEntry>)
    requires multiset(a) == multiset(b)
    ensures Min(Sum(a, SIZE), U64_MAX) == Min(Sum(b, SIZE), U64_MAX)
  {
    SumPermutation(a, b, SIZE);
  }

  // ---- The latch ---------------------------------------------------------

  class SpillLatch {
    const cfg: Config
    var firing: bool
    // The breach bits of the samples taken, as a breach counter with limit 1
    // would be fed them.
    ghost var history: seq<Obs>

    ghost predicate Valid()
      reads this
    {
      && Fixed(history, 1)
      && firing == (history != [] && history[|history| - 1].breached)
    }

    constructor (cfg: Config)
      ensures Valid() && history == [] && this.cfg == cfg
    {
      this.cfg, firing, history := cfg, false, [];
    }

    // One tick; a failed sample changes nothing. The latch emits exactly when
    // the breach counter with limit 1 would have just fired.
    method Tick(sample: Option<Sample>) returns (emitted: Option<BreachReason>)
      requires Valid()
      modifies this
      ensures Valid()
      ensures sample.None? ==> emitted.None? && history == old(history) && firing == old(firing)
      ensures sample.Some? ==>
                && history == old(history) + [Obs(sample.value.Breaches(cfg).Some?, 1)]
                && (emitted.Some? <==> Verdict(history).JustFired?)
                && (emitted.Some? ==> emitted == sample.value.Breaches(cfg))
    {
      emitted := None;
      if sample.None? {
        return;
      }
      var breach := sample.value.Breaches(cfg);
      LatchIsCounter(history, breach.Some?);
      history := history + [Obs(breach.Some?, 1)];
      if breach.Some? && !firing {
        emitted := breach;
        firing := true;
      } else if breach.None? && firing {
        firing := false;
      }
    }
  }

  lemma {:induction false} LatchIsCounter(h: seq<Obs>, breached: bool)
    requires Fixed(h, 1)
    ensures Verdict(h + [Obs(breached, 1)]).JustFired? <==>
            breached && (h == [] || !h[|h| - 1].breached)
  {
    FixedVerdict(h + [Obs(breached, 1)], 1);
    ExtendRun(h, Obs(breached, 1));
  }

  predicate StartsEpisode(h: seq<Obs>, k: int)
    requires 0 <= k < |h|
  {
    h[k].breached && (k == 0 || !h[k - 1].breached)
  }

  // So over any samples the latch emits once per maximal run of breaches.
  lemma {:induction false} OneEmissionPerEpisode(h: seq<Obs>)
    requires Fixed(h, 1)
    ensures Fires(h) == set k | 0 <= k < |h| && StartsEpisode(h, k)
    ensures |Fires(h)| == |Runs.LongBlocks(Window.Breaches(h), b => b, 1)|
  {
    FiresCountLongRuns(h, 1);
    forall k | 0 <= k < |h|
      ensures FiresAt(h, k) <==> StartsEpisode(h, k)
    {
      assert h[..k + 1] == h[..k] + [Obs(h[k].breached, 1)];
      LatchIsCounter(h[..k], h[k].breached);
    }
  }
}
