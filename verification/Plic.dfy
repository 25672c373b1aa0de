/**
 The interrupt controller's claim register and its wire to S-mode.
 */
module Plic {
  import opened BitWords

  const SOURCES: nat := 64

  /** The sources whose bit is set in a pair of 32-bit words. */
  function SetOf(words: seq<nat>): set<nat>
    requires |words| == 2
  {
    set i | 0 <= i < 64 && TestBit(words[i / 32], i % 32)
  }

  /** Lowest member of `s` from `i` on, 0 if none. */
  function LowestFrom(s: set<nat>, i: nat): (k: nat)
    requires 1 <= i <= SOURCES
    ensures k == 0 || (i <= k < SOURCES && k in s)
    ensures forall j :: i <= j < (if k == 0 then SOURCES else k) ==> j !in s
    decreases SOURCES - i
  {
    if i == SOURCES then 0 else if i in s then i else LowestFrom(s, i + 1)
  }

  /** A claim on pending sources `p` of which `e` are enabled. */
  function ClaimIn(p: set<nat>, e: set<nat>): nat {
    LowestFrom(p * e, 1)
  }

  class Controller {
    const pending: array<nat>
    const enable: array<nat>      // context 0 then context 1, two words each
    const claim: array<nat>

    ghost predicate Valid()
      reads this
    {
      pending.Length == 2 && enable.Length == 4 && claim.Length == 2
      && pending != enable && pending != claim && enable != claim
    }

    ghost function Pending(): set<nat>
      requires Valid()
      reads this, pending
    {
      SetOf(pending[..])
    }

    ghost function Enabled(ctx: nat): set<nat>
      requires Valid() && ctx < 2
      reads this, enable
    {
      SetOf(enable[2 * ctx..2 * ctx + 2])
    }

    constructor ()
      ensures Valid() && fresh(pending) && fresh(enable) && fresh(claim)
    {
      pending, enable, claim := new nat[2](_ => 0), new nat[4](_ => 0), new nat[2](_ => 0);
    }

    /** The claim read of `plic_load`: the lowest pending enabled source from 1 on, whose pending bit it
        clears; 0 and no change if there is none. */
    method Claim(ctx: nat) returns (irq: nat)
      requires Valid() && ctx < 2
      modifies pending, claim
      ensures irq == ClaimIn(old(Pending()), Enabled(ctx))
      ensures Pending() == old(Pending()) - {irq} || irq == 0
      ensures irq == 0 ==> pending[..] == old(pending[..]) && claim[..] == old(claim[..])
      ensures irq != 0 ==> claim[..] == old(claim[..])[ctx := irq]
    {
      hide TestBit, SetOf;
      ghost var p, e := Pending(), Enabled(ctx);
      for i := 1 to SOURCES
        invariant LowestFrom(p * e, 1) == LowestFrom(p * e, i)
        invariant pending[..] == old(pending[..]) && claim[..] == old(claim[..])
      {
        ReadyBit(pending[..], enable[2 * ctx..2 * ctx + 2], i);
        if TestBit(pending[i / 32], i % 32) && TestBit(enable[2 * ctx + i / 32], i % 32) {
          Take(ctx, i);
          return i;
        }
      }
      return 0;
    }

    method Take(ctx: nat, i: nat)
      requires Valid() && ctx < 2 && i < SOURCES
      modifies pending, claim
      ensures Pending() == old(Pending()) - {i} && claim[..] == old(claim[..])[ctx := i]
    {
      ghost var before := pending[..];
      pending[i / 32] := ClearBit(pending[i / 32], i % 32);
      ClearedSet(before, i);
      assert pending[..] == before[i / 32 := ClearBit(before[i / 32], i % 32)];
      claim[ctx] := i;
    }

    /** A device raises its line. */
    method Raise(irq: nat)
      requires Valid() && irq < SOURCES
      modifies pending
      ensures Pending() == old(Pending()) + {irq}
    {
      ghost var before := pending[..];
      pending[irq / 32] := SetBit(pending[irq / 32], irq % 32);
      RaisedSet(before, irq);
      assert pending[..] == before[irq / 32 := SetBit(before[irq / 32], irq % 32)];
    }

    /** The test with which `check_interrupts` drives SEIP. */
    method ExternalPending() returns (some: bool)
      requires Valid()
      ensures some == (Pending() * Enabled(1) != {})
    {
      some := false;
      for i := 0 to 2
        invariant !some
        invariant forall k :: k in Pending() * Enabled(1) ==> k >= 32 * i
      {
        MeetIsCommonBit(pending[i], enable[2 + i], 32);
        assert enable[2..4][i] == enable[2 + i];
        if Meet(pending[i], enable[2 + i], 32) {
          ghost var b :| 0 <= b < 32 && TestBit(pending[i], b) && TestBit(enable[2 + i], b);
          ghost var k := 32 * i + b;
          assert k / 32 == i && k % 32 == b;
          assert k in Pending() * Enabled(1);
          some := true;
          return;
        }
        forall k | k in Pending() * Enabled(1) ensures k >= 32 * (i + 1) {
          if k / 32 == i {
            assert TestBit(pending[..][i], k % 32) && TestBit(enable[2..4][i], k % 32);
            MeetingBit(pending[i], enable[2 + i], 32, k % 32);
          }
        }
      }
      assert Pending() * Enabled(1) == {};
    }
  }

  lemma ReadyBit(pending: seq<nat>, enable: seq<nat>, i: nat)
    requires |pending| == 2 && |enable| == 2 && i < SOURCES
    ensures i in SetOf(pending) * SetOf(enable) <==> TestBit(pending[i / 32], i % 32) && TestBit(enable[i / 32], i % 32)
  {
  }

  lemma ClearedSet(words: seq<nat>, i: nat)
    requires |words| == 2 && i < 64
    ensures SetOf(words[i / 32 := ClearBit(words[i / 32], i % 32)]) == SetOf(words) - {i}
  {
    var after := words[i / 32 := ClearBit(words[i / 32], i % 32)];
    forall k | 0 <= k < 64 ensures k in SetOf(after) <==> k in SetOf(words) - {i} {
      if k / 32 == i / 32 {
        TestAfterClear(words[k / 32], i % 32, k % 32);
      }
    }
  }

  lemma RaisedSet(words: seq<nat>, i: nat)
    requires |words| == 2 && i < 64
    ensures SetOf(words[i / 32 := SetBit(words[i / 32], i % 32)]) == SetOf(words) + {i}
  {
    var after := words[i / 32 := SetBit(words[i / 32], i % 32)];
    forall k | 0 <= k < 64 ensures k in SetOf(after) <==> k in SetOf(words) + {i} {
      if k / 32 == i / 32 {
        TestAfterSet(words[k / 32], i % 32, k % 32);
      }
    }
  }

  /** SEIP is raised exactly when a claim would return a source, unless source 0, which no claim
      returns, is the only one pending and enabled. */
  lemma SeipMeansClaim(p: set<nat>, e: set<nat>)
    requires forall i :: i in p ==> i < SOURCES
    ensures (p * e != {}) == (ClaimIn(p, e) != 0) <==> p * e != {0}
  {
    if p * e != {} && ClaimIn(p, e) == 0 {
      assert p * e == {0};
    }
    if p * e == {0} {
      assert 0 in p * e;
    }
  }

  /** The case it is about: with source 0 alone pending and enabled, the wire is raised and a claim returns 0. */
  lemma SourceZeroAlone()
    ensures {0} * {0} != {} && ClaimIn({0}, {0}) == 0
  {
    assert 0 in {0} * {0};
    var c := ClaimIn({0}, {0});
    assert c != 0 ==> c in {0} * {0};
  }

  // Source 0 is no device's

  const UART0_IRQ: nat := 10
  const VIRTIO_BLK_IRQ: nat := 8
  const VIRTIO_NET_IRQ: nat := 9

  const DEVICES: set<nat> := {VIRTIO_BLK_IRQ, VIRTIO_NET_IRQ, UART0_IRQ}

  /** What changes pending and enabled sources: device lines, claims, and writes of enable registers. */
  datatype LineEvent = Raised(irq: nat) | Claimed(ctx: nat) | EnableWritten(ctx: nat, enabled: set<nat>)

  datatype Lines = Lines(pending: set<nat>, enabled: seq<set<nat>>)

  function Happens(s: Lines, e: LineEvent): Lines
    requires |s.enabled| == 2
  {
    match e
    case Raised(irq) => s.(pending := s.pending + {irq})
    case Claimed(ctx) => if ctx < 2 then s.(pending := s.pending - {ClaimIn(s.pending, s.enabled[ctx])}) else s
    case EnableWritten(ctx, enabled) => if ctx < 2 then s.(enabled := s.enabled[ctx := enabled]) else s
  }

  function HappenAll(s: Lines, es: seq<LineEvent>): (t: Lines)
    requires |s.enabled| == 2
    ensures |t.enabled| == 2
    decreases |es|
  {
    if es == [] then s else HappenAll(Happens(s, es[0]), es[1..])
  }

  /** From reset on, only the devices' sources are ever pending. */
  lemma {:induction false} OnlyDevicesPend(s: Lines, es: seq<LineEvent>)
    requires |s.enabled| == 2 && s.pending <= DEVICES
    requires forall i :: 0 <= i < |es| && es[i].Raised? ==> es[i].irq in DEVICES
    ensures HappenAll(s, es).pending <= DEVICES
    decreases |es|
  {
    hide ClaimIn;
    if es != [] {
      OnlyDevicesPend(Happens(s, es[0]), es[1..]);
    }
  }

  /** `n` claims in a row, with nothing arriving in between. */
  function Claims(p: set<nat>, e: set<nat>, n: nat): seq<nat> {
    if n == 0 then [] else [ClaimIn(p, e)] + Claims(p - {ClaimIn(p, e)}, e, n - 1)
  }

  function Ready(p: set<nat>, e: set<nat>): set<nat> {
    set i | i in p && i in e && 0 < i < SOURCES
  }

  lemma ClaimIsLeast(p: set<nat>, e: set<nat>)
    ensures var c := ClaimIn(p, e);
            if c == 0 then Ready(p, e) == {}
            else c in Ready(p, e) && (forall i :: i in Ready(p, e) ==> c <= i) && Ready(p - {c}, e) == Ready(p, e) - {c}
  {
    var c := ClaimIn(p, e);
    forall i | i in Ready(p, e) ensures c != 0 && c <= i {
      assert i in p * e;
    }
  }

  /** Claims come in ascending order, zeros last. */
  lemma {:induction false} ClaimsAscend(p: set<nat>, e: set<nat>, n: nat)
    ensures |Claims(p, e, n)| == n
    ensures forall k :: 0 <= k < n ==> Claims(p, e, n)[k] == 0 || Claims(p, e, n)[k] in Ready(p, e)
    ensures forall i, j :: 0 <= i < j < n && Claims(p, e, n)[j] != 0 ==> 0 < Claims(p, e, n)[i] < Claims(p, e, n)[j]
  {
    hide ClaimIn, Ready;
    if n > 0 {
      var c := ClaimIn(p, e);
      var rest := Claims(p - {c}, e, n - 1);
      ClaimIsLeast(p, e);
      ClaimsAscend(p - {c}, e, n - 1);
      if c == 0 {
        ZeroIsNotReady(p, e);
      }
      ReadyPositive(p, e);
      assert Claims(p, e, n) == [c] + rest;
    }
  }

  lemma ZeroIsNotReady(p: set<nat>, e: set<nat>)
    ensures Ready(p - {0}, e) == Ready(p, e)
  {
  }

  lemma ReadyPositive(p: set<nat>, e: set<nat>)
    ensures forall i :: i in Ready(p, e) ==> i > 0
  {
  }

  /** Enough claims return every pending and enabled source, and nothing else but zeros. */
  lemma {:induction false} ClaimsAreComplete(p: set<nat>, e: set<nat>, n: nat)
    requires n >= |Ready(p, e)|
    ensures forall i :: i in Ready(p, e) ==> i in Claims(p, e, n)
    decreases n
  {
    var c := ClaimIn(p, e);
    ClaimIsLeast(p, e);
    if Ready(p, e) != {} {
      ClaimsAreComplete(p - {c}, e, n - 1);
      forall i | i in Ready(p, e) ensures i in Claims(p, e, n) {
        if i != c {
          assert i in Ready(p - {c}, e);
        }
      }
    }
  }

  /** What is pending after `n` claims. */
  function PendingAfter(p: set<nat>, e: set<nat>, n: nat): set<nat> {
    if n == 0 then p else PendingAfter(p - {ClaimIn(p, e)}, e, n - 1)
  }

  /** After enough claims every further one returns 0, and sources that are not enabled are still pending. */
  lemma {:induction false} ClaimsLeaveTheRest(p: set<nat>, e: set<nat>, n: nat)
    requires n >= |Ready(p, e)|
    ensures ClaimIn(PendingAfter(p, e, n), e) == 0
    ensures forall i :: i in p && 0 < i < SOURCES ==> (i in PendingAfter(p, e, n) <==> i !in e)
    decreases n
  {
    hide ClaimIn;
    var c := ClaimIn(p, e);
    ClaimIsLeast(p, e);
    if n > 0 {
      if c == 0 {
        assert Ready(p - {c}, e) == {};
      }
      ClaimsLeaveTheRest(p - {c}, e, n - 1);
      StaysGone(p - {c}, e, n - 1);
      assert PendingAfter(p, e, n) == PendingAfter(p - {c}, e, n - 1);
      forall i | i in p && 0 < i < SOURCES ensures i in PendingAfter(p, e, n) <==> i !in e {
        if i != c {
          assert i in p - {c};
        }
      }
    } else {
      assert Ready(p, e) == {};
      assert forall i :: i in p && 0 < i < SOURCES && i in e ==> i in Ready(p, e);
    }
  }

  lemma {:induction false} StaysGone(p: set<nat>, e: set<nat>, n: nat)
    ensures PendingAfter(p, e, n) <= p
  {
    if n > 0 {
      StaysGone(p - {ClaimIn(p, e)}, e, n - 1);
    }
  }
}
