/**
 The interrupt controller wired to the CPU: what `check_interrupts` sees of it.
 */
module Board {
  import opened Words
  import opened Plic
  import opened Traps

  /** With source 0 not pending, sampling sets SEIP if and only if a context-1 claim would return a source. */
  lemma SeipMeansClaimable(p: set<nat>, e: set<nat>, mip: set<nat>, inp: Inputs)
    requires inp.plic == (p * e != {}) && 0 !in p && forall i :: i in p ==> i < SOURCES
    ensures SEIP in Sampled(mip, inp) <==> ClaimIn(p, e) != 0
  {
    SeipMeansClaim(p, e);
    assert p * e != {0} by {
      assert 0 !in p * e;
    }
  }

  /** In every run of the board, whatever is enabled and claimed in between. */
  lemma SeipAlwaysMeansClaimable(s: Lines, es: seq<LineEvent>, mip: set<nat>, inp: Inputs)
    requires |s.enabled| == 2 && s.pending == {}
    requires forall i :: 0 <= i < |es| && es[i].Raised? ==> es[i].irq in DEVICES
    requires inp.plic == (HappenAll(s, es).pending * HappenAll(s, es).enabled[1] != {})
    ensures SEIP in Sampled(mip, inp) <==> ClaimIn(HappenAll(s, es).pending, HappenAll(s, es).enabled[1]) != 0
  {
    OnlyDevicesPend(s, es);
    SeipMeansClaimable(HappenAll(s, es).pending, HappenAll(s, es).enabled[1], mip, inp);
  }

  class Board {
    const plic: Controller
    const cpu: Cpu

    constructor (plic: Controller, cpu: Cpu)
      ensures this.plic == plic && this.cpu == cpu
    {
      this.plic, this.cpu := plic, cpu;
    }

    /** `check_interrupts`, with the controller's registers as they are. */
    method CheckInterrupts(mtime: Word, mtimecmp: Word, stimecmp: Word) returns (taken: bool)
      requires plic.Valid()
      modifies cpu
      ensures var inp := Inputs(mtime, mtimecmp, stimecmp, plic.Pending() * plic.Enabled(1) != {});
              (cpu.View(), taken) == Check(old(cpu.View()), inp)
      ensures 0 !in plic.Pending() ==> (SEIP in cpu.mip <==> ClaimIn(plic.Pending(), plic.Enabled(1)) != 0)
    {
      var some := plic.ExternalPending();
      ghost var inp := Inputs(mtime, mtimecmp, stimecmp, some);
      ghost var h := cpu.View();
      taken := cpu.CheckInterrupts(Inputs(mtime, mtimecmp, stimecmp, some));
      CheckSamples(h, inp);
      if 0 !in plic.Pending() {
        SeipMeansClaimable(plic.Pending(), plic.Enabled(1), h.mip, inp);
      }
    }
  }

  /** Delivering an interrupt leaves the pending register as sampled. */
  lemma CheckSamples(h: Hart, inp: Inputs)
    ensures Check(h, inp).0.mip == Sampled(h.mip, inp)
  {
    hide Sampled;
  }
}
