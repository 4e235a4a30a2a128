/** The allocator's macros, `.set` by `.set`: each takes the step of its command, and keeps live blocks disjoint,
    aligned and in range, and the limits matched, as long as it raises no error. */
module GprMacros {
  import opened GprAlloc
  import opened GprSafety

  /** The assembler's symbol table while the macros run; each assignment is one `.set`. The symbols keep the
      bases of blocks only, so the owners are ghost. */
  class Symbols {
    var sym: State
    ghost var live: Owners

    ghost function Now(): Config
      reads this
    {
      Config(sym, live)
    }

    /** The invariant of the allocator, after a macro that raised no error. */
    static lemma Kept(c: Config, cmd: Cmd)
      ensures Sound(c) && FromOk(c, cmd) && !Step(c.s, cmd).failed ==> Sound(Next1(c, cmd))
    {
      if Sound(c) && FromOk(c, cmd) && !Step(c.s, cmd).failed { StepKeepsSound(c, cmd); }
    }

    method GprAllocBegin()
      modifies this
      ensures Now() == Next1(old(Now()), Begin) && Sound(Now()) && live == map[]
      ensures sym.nextV == sym.nextS == sym.nextL == 0 && sym.availV == 256 && sym.availS == 102 && sym.availL == 65536
      ensures sym.reserveVcc == sym.reserveXnack == sym.reserveFlat == 0 && sym.guard == 0
      ensures sym.maxWaves == 10 && sym.minWaves == 1
      ensures sym.symbols == old(sym.symbols) && sym.once == old(sym.once) && sym.failed == old(sym.failed)
    {
      ghost var before := Now();
      sym := sym.(availV := 256, availS := 102, availL := 65536);
      sym := sym.(nextS := 0, nextV := 0, nextL := 0);
      sym := sym.(autoV := 0, autoS := 0, autoL := 0, granV := 0, granS := 0);
      sym := sym.(reserveVcc := 0, reserveXnack := 0, reserveFlat := 0);
      sym := sym.(guard := 0, maxWaves := 10, minWaves := 1);
      live := NextLive(before, Begin);
    }

    method CheckSgprAllocation(n: int)
      modifies this
      ensures sym == CheckS(old(sym), n)
    {
      if sym.nextS + n >= sym.availS { sym := sym.(failed := true); }
    }

    method CheckVgprAllocation(n: int)
      modifies this
      ensures sym == CheckV(old(sym), n)
    {
      if sym.nextV + n >= sym.availV { sym := sym.(failed := true); }
    }

    method CheckLdsAllocation(n: int)
      modifies this
      ensures sym == CheckL(old(sym), n)
    {
      if sym.nextL + n >= sym.availL { sym := sym.(failed := true); }
    }

    method GprsForWaveLimit(waves: int) returns (sgprs: int, vgprs: int)
      ensures 1 <= waves <= 10 ==> vgprs % 4 == 0 && vgprs * waves <= 256 < (vgprs + 4) * waves
      ensures !(1 <= waves <= 10) ==> vgprs == 256
      ensures waves == 10 ==> sgprs == 80
      ensures 8 <= waves <= 9 ==> sgprs == 96
      ensures !(8 <= waves <= 10) ==> sgprs == 102
      ensures sgprs == TableS(waves) && vgprs == TableV(waves)
    {
      if waves == 10 { sgprs, vgprs := 80, 24; }
      else if waves == 9 { sgprs, vgprs := 96, 28; }
      else if waves == 8 { sgprs, vgprs := 96, 32; }
      else if waves == 7 { sgprs, vgprs := 102, 36; }
      else if waves == 6 { sgprs, vgprs := 102, 40; }
      else if waves == 5 { sgprs, vgprs := 102, 48; }
      else if waves == 4 { sgprs, vgprs := 102, 64; }
      else if waves == 3 { sgprs, vgprs := 102, 84; }
      else if waves == 2 { sgprs, vgprs := 102, 128; }
      else { sgprs, vgprs := 102, 256; }
      TableRows(waves);
    }

    method SetMinWavesLimit(waves: int)
      modifies this
      ensures Now() == Next1(old(Now()), SetMin(waves))
      ensures sym.minWaves == waves && sym.maxWaves == old(sym.maxWaves)
      ensures 1 <= waves <= 10 ==> sym.availV % 4 == 0 && sym.availV * waves <= 256 < (sym.availV + 4) * waves
      ensures old(Sound(Now())) && !sym.failed ==> Sound(Now())
    {
      ghost var before := Now();
      if waves > 10 { sym := sym.(failed := true); }
      var s, v := GprsForWaveLimit(waves);
      sym := sym.(availS := s, availV := v);
      CheckSgprAllocation(0);
      CheckVgprAllocation(0);
      sym := sym.(minWaves := waves);
      if sym.minWaves > sym.maxWaves { sym := sym.(failed := true); }
      live := NextLive(before, SetMin(waves));
      Kept(before, SetMin(waves));
    }

    method SetMaxWavesLimit(waves: int)
      modifies this
      ensures Now() == Next1(old(Now()), SetMax(waves))
      ensures sym.maxWaves == waves && sym.minWaves == old(sym.minWaves) && sym.availV == old(sym.availV)
      ensures old(Sound(Now())) && !sym.failed ==> Sound(Now())
    {
      ghost var before := Now();
      if waves < 1 { sym := sym.(failed := true); }
      sym := sym.(maxWaves := waves);
      if sym.minWaves > sym.maxWaves { sym := sym.(failed := true); }
      live := NextLive(before, SetMax(waves));
      Kept(before, SetMax(waves));
    }

    /** The second half of `.GPR_ALLOC_END`. */
    method CountGprs()
      modifies this`sym
      ensures sym == EndCounts(old(sym))
    {
      ghost var checked := sym;
      var extra := 2 * (sym.reserveFlat + sym.reserveXnack + sym.reserveVcc);
      var s, v := GprsForWaveLimit(sym.maxWaves);
      sym := sym.(autoS := s, autoV := v);
      if sym.autoV < sym.nextV { sym := sym.(autoV := sym.nextV); }
      if sym.autoS < sym.nextS + extra { sym := sym.(autoS := sym.nextS + extra); }
      assert sym == checked.(autoV := Max(v, checked.nextV), autoS := Max(s, checked.nextS + extra));
      sym := sym.(granV := Div(sym.autoV - 1, 4), granS := Div(sym.autoS - 1, 8));
      sym := sym.(autoL := sym.nextL, guard := 1);
    }

    /** Without an error the counts cover what was allocated, and the promised occupancy is kept exactly under the
        condition on the limits. */
    method GprAllocEnd()
      modifies this
      ensures Now() == Next1(old(Now()), End)
      ensures old(Sound(Now())) && !sym.failed ==>
                && Sound(Now()) && Covers(sym, live)
                && Granted(sym) >= sym.nextV && 8 * (sym.granS + 1) < sym.autoS + 8 && sym.autoL == sym.nextL
                && 8 * (sym.granS + 1) >= sym.nextS + 2 * (sym.reserveFlat + sym.reserveXnack + sym.reserveVcc)
                && (Granted(sym) * sym.minWaves <= 256 <==> sym.maxWaves <= 10 || sym.minWaves <= 1)
    {
      ghost var before := Now();
      if sym.guard == 1 { sym := sym.(failed := true); }
      CheckSgprAllocation(0);
      CheckVgprAllocation(0);
      CheckLdsAllocation(0);
      ghost var checked := sym;
      assert checked == CheckL(CheckV(CheckS(FailIf(before.s, before.s.guard == 1), 0), 0), 0);
      CountGprs();
      live := NextLive(before, End);
      Kept(before, End);
      if Sound(before) && !sym.failed {
        OccupancyExact(before.s);
        EndCovers(before);
      }
    }

    method VgprAlloc(name: string, n: nat)
      modifies this
      ensures Now() == Next1(old(Now()), VAlloc(name, n))
      ensures old(Sound(Now())) && !sym.failed ==> Sound(Now())
    {
      ghost var before := Now();
      CheckVgprAllocation(n);
      sym := sym.(symbols := sym.symbols[name := sym.nextV]);
      sym := sym.(nextV := sym.nextV + n);
      live := NextLive(before, VAlloc(name, n));
      Kept(before, VAlloc(name, n));
    }

    method SgprAlloc(name: string, n: nat, align: int)
      modifies this
      ensures Now() == Next1(old(Now()), SAlloc(name, n, align))
      ensures old(Sound(Now())) && !sym.failed ==> Sound(Now())
    {
      ghost var before := Now();
      CheckSgprAllocation(n);
      var effective: nat;
      if align > 0 { effective := align; } else if n > 4 { effective := 4; } else { effective := n; }
      if effective == 0 || sym.nextS % effective != 0 { sym := sym.(failed := true); }
      sym := sym.(symbols := sym.symbols[name := sym.nextS]);
      sym := sym.(nextS := sym.nextS + n);
      live := NextLive(before, SAlloc(name, n, align));
      Kept(before, SAlloc(name, n, align));
    }

    method LdsAllocFrom(at: int)
      modifies this
      ensures sym == old(sym).(nextL := at)
    {
      sym := sym.(nextL := at);
    }

    method LdsAllocate(name: string, bytes: nat, align: nat)
      modifies this
      ensures Now() == Next1(old(Now()), LdsAlloc(name, bytes, align))
      ensures old(Sound(Now())) && !sym.failed ==> Sound(Now())
    {
      ghost var before := Now();
      if align == 0 {
        sym := sym.(failed := true);
      } else if sym.nextL % align != 0 {
        LdsAllocFrom((Div(sym.nextL, align) + 1) * align);
      }
      CheckLdsAllocation(bytes);
      sym := sym.(symbols := sym.symbols[name := sym.nextL]);
      sym := sym.(nextL := sym.nextL + bytes);
      live := NextLive(before, LdsAlloc(name, bytes, align));
      Kept(before, LdsAlloc(name, bytes, align));
    }

    method SgprAllocOnce(name: string, n: nat, align: int)
      modifies this
      ensures Now() == Next1(old(Now()), SAllocOnce(name, n, align))
      ensures old(Sound(Now())) && !sym.failed ==> Sound(Now())
      ensures name in old(sym.once) ==> Now() == old(Now())
    {
      ghost var before := Now();
      if name !in sym.once {
        sym := sym.(once := sym.once + {name});
        SgprAlloc(name, n, align);
      }
      live := NextLive(before, SAllocOnce(name, n, align));
      Kept(before, SAllocOnce(name, n, align));
    }

    method GprInvalidate(name: string)
      modifies this
      ensures Now() == Next1(old(Now()), Invalidate(name))
      ensures old(Sound(Now())) && !sym.failed ==> Sound(Now())
    {
      ghost var before := Now();
      sym := sym.(symbols := sym.symbols[name := INVALID]);
      live := NextLive(before, Invalidate(name));
      Kept(before, Invalidate(name));
    }

    method GprReuse(x: string, y: string)
      modifies this
      ensures Now() == Next1(old(Now()), Reuse(x, y))
      ensures old(Sound(Now())) && !sym.failed ==> Sound(Now())
      ensures x != y && x in old(live) ==> live == (old(live) - {x})[y := old(live)[x]]
    {
      ghost var before := Now();
      if x !in sym.symbols { sym := sym.(failed := true); }
      sym := sym.(symbols := sym.symbols[y := Get(sym.symbols, x)]);
      GprInvalidate(x);
      live := NextLive(before, Reuse(x, y));
      Kept(before, Reuse(x, y));
    }
  }
}
