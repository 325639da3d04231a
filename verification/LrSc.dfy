/** The load-reserved/store-conditional loops of the atomic examples, interleaved on any number of harts.
    Reservations follow section 8.2 of the RISC-V Unprivileged ISA 20191213: a store to the word ends every
    reservation on it, and an sc without a reservation fails; an sc may also fail without a reason. */
module LrSc {
  import opened Words

  /** One memory word and the harts that hold a reservation on it. */
  datatype Cell = Cell(word: u64, reserved: set<nat>)

  function Lr(c: Cell, hart: nat): Cell { c.(reserved := c.reserved + {hart}) }

  function ScOk(c: Cell, v: u64): Cell { Cell(v, {}) }

  function ScFail(c: Cell, hart: nat): Cell { c.(reserved := c.reserved - {hart}) }

  // ----- example_14_2_atomic_add.c

  /** atomic_add takes an int, which the calling convention sign-extends to the register. */
  type i32 = x: int | -0x8000_0000 <= x < 0x8000_0000

  /** The instruction a hart is about to execute. */
  datatype AddPc = AtLr | AtAdd(tmp: u64) | AtSc(sum: u64) | AtBnez(result: nat)

  /** A hart with the addends of the calls it still has to finish. */
  datatype Adder = Adder(pc: AddPc, todo: seq<i32>)

  datatype AddState = AddState(cell: Cell, harts: seq<Adder>)

  /** A scheduler's choice: which hart executes one instruction, and whether an sc is let through. */
  datatype Choice = Choice(hart: nat, scOk: bool)

  function AddStep(s: AddState, ch: Choice): AddState {
    if ch.hart >= |s.harts| || s.harts[ch.hart].todo == [] then s
    else
      var h := s.harts[ch.hart];
      match h.pc
      case AtLr => AddState(Lr(s.cell, ch.hart), s.harts[ch.hart := h.(pc := AtAdd(s.cell.word))])
      case AtAdd(tmp) => s.(harts := s.harts[ch.hart := h.(pc := AtSc(Wrap(tmp + h.todo[0])))])
      case AtSc(sum) =>
        if ch.scOk && ch.hart in s.cell.reserved
        then AddState(ScOk(s.cell, sum), s.harts[ch.hart := h.(pc := AtBnez(0))])
        else AddState(ScFail(s.cell, ch.hart), s.harts[ch.hart := h.(pc := AtBnez(1))])
      case AtBnez(result) =>
        s.(harts := s.harts[ch.hart := if result == 0 then Adder(AtLr, h.todo[1..]) else h.(pc := AtLr)])
  }

  function AddRun(s: AddState, choices: seq<Choice>): AddState {
    if choices == [] then s else AddStep(AddRun(s, choices[..|choices| - 1]), choices[|choices| - 1])
  }

  function Sum(xs: seq<i32>): int {
    if xs == [] then 0 else xs[0] + Sum(xs[1..])
  }

  /** What a hart has still to add to memory. */
  function Owed(h: Adder): int {
    if h.todo != [] && h.pc == AtBnez(0) then Sum(h.todo[1..]) else Sum(h.todo)
  }

  function AllOwed(harts: seq<Adder>): int {
    if harts == [] then 0 else Owed(harts[0]) + AllOwed(harts[1..])
  }

  lemma {:induction false} OwedUpdate(harts: seq<Adder>, k: nat, h: Adder)
    requires k < |harts|
    ensures AllOwed(harts[k := h]) == AllOwed(harts) - Owed(harts[k]) + Owed(h)
  {
    if k > 0 {
      assert harts[k := h][1..] == harts[1..][k - 1 := h];
      OwedUpdate(harts[1..], k - 1, h);
    } else {
      assert harts[k := h][1..] == harts[1..];
    }
  }

  /** A hart whose reservation stands holds what memory still holds. */
  ghost predicate Honest(cell: Cell, hart: nat, h: Adder) {
    hart in cell.reserved && h.todo != [] ==>
      && (h.pc.AtAdd? ==> h.pc.tmp == cell.word)
      && (h.pc.AtSc? ==> h.pc.sum == Wrap(cell.word + h.todo[0]))
  }

  /** The word is the first value plus all that was added, modulo 2^64. */
  ghost predicate Accounted(s: AddState, total: int) {
    && (forall k: nat | k < |s.harts| :: Honest(s.cell, k, s.harts[k]))
    && s.cell.word == (total - AllOwed(s.harts)) % TWO_64
  }

  lemma AddMod(total: int, owed: int, a: i32, word: u64)
    requires word == (total - owed) % TWO_64
    ensures Wrap(word + a) == (total - (owed - a)) % TWO_64
  {
    var q := (total - owed) / TWO_64;
    assert total - owed == q * TWO_64 + word;
    if word + a < 0 {
      assert total - (owed - a) == (q - 1) * TWO_64 + (word + a + TWO_64);
    } else if word + a < TWO_64 {
      assert total - (owed - a) == q * TWO_64 + (word + a);
    } else {
      assert total - (owed - a) == (q + 1) * TWO_64 + (word + a - TWO_64);
    }
  }

  lemma AddStepAccounted(s: AddState, ch: Choice, total: int)
    requires Accounted(s, total)
    ensures Accounted(AddStep(s, ch), total)
  {
    hide Sum, AllOwed;
    if ch.hart < |s.harts| && s.harts[ch.hart].todo != [] {
      var k, h := ch.hart, s.harts[ch.hart];
      var s' := AddStep(s, ch);
      OwedUpdate(s.harts, k, s'.harts[k]);
      OwedStep(h);
      assert Honest(s.cell, k, h);
      if h.pc.AtSc? && ch.scOk && k in s.cell.reserved {
        AddMod(total, AllOwed(s.harts), h.todo[0], s.cell.word);
      }
    }
  }

  lemma OwedStep(h: Adder)
    requires h.todo != []
    ensures Owed(h.(pc := AtBnez(0))) == Sum(h.todo) - h.todo[0]
    ensures h.pc == AtBnez(0) ==> Owed(h) == Owed(Adder(AtLr, h.todo[1..]))
  {
  }

  lemma {:induction false} AddRunAccounted(s: AddState, choices: seq<Choice>, total: int)
    requires Accounted(s, total)
    ensures Accounted(AddRun(s, choices), total)
  {
    if choices != [] {
      AddRunAccounted(s, choices[..|choices| - 1], total);
      AddStepAccounted(AddRun(s, choices[..|choices| - 1]), choices[|choices| - 1], total);
    }
  }

  /** Every interleaving in which all calls have finished leaves the initial value plus the sum of all
      addends, modulo 2^64. */
  lemma AddsAreAtomic(init: u64, calls: seq<seq<i32>>, choices: seq<Choice>)
    ensures var s := AddRun(Started(init, calls), choices);
            (forall h | h in s.harts :: h.todo == []) ==> s.cell.word == (init + SumAll(calls)) % TWO_64
  {
    hide AddStep;
    var s0 := Started(init, calls);
    StartedOwes(calls);
    var total := init + SumAll(calls);
    AddRunAccounted(s0, choices, total);
    var s := AddRun(s0, choices);
    if forall h | h in s.harts :: h.todo == [] {
      NothingOwed(s.harts);
    }
  }

  function Started(init: u64, calls: seq<seq<i32>>): AddState {
    AddState(Cell(init, {}), seq(|calls|, k requires 0 <= k < |calls| => Adder(AtLr, calls[k])))
  }

  function SumAll(calls: seq<seq<i32>>): int {
    if calls == [] then 0 else Sum(calls[0]) + SumAll(calls[1..])
  }

  lemma {:induction false} StartedOwes(calls: seq<seq<i32>>)
    ensures AllOwed(Started(0, calls).harts) == SumAll(calls)
    ensures forall init: u64 :: Started(init, calls).harts == Started(0, calls).harts
  {
    if calls != [] {
      StartedOwes(calls[1..]);
      assert Started(0, calls).harts[1..] == Started(0, calls[1..]).harts;
    }
  }

  lemma {:induction false} NothingOwed(harts: seq<Adder>)
    requires forall h | h in harts :: h.todo == []
    ensures AllOwed(harts) == 0
  {
    if harts != [] {
      assert harts[0] in harts;
      NothingOwed(harts[1..]);
    }
  }

  lemma AddRunNext(s: AddState, choices: seq<Choice>, ch: Choice)
    ensures AddRun(s, choices + [ch]) == AddStep(AddRun(s, choices), ch)
  {
    assert (choices + [ch])[..|choices|] == choices;
  }

  lemma FourSteps(s: AddState, ch: Choice)
    ensures AddRun(s, [ch, ch, ch, ch]) == AddStep(AddStep(AddStep(AddStep(s, ch), ch), ch), ch)
  {
    hide AddStep;
    AddRunNext(s, [], ch);
    AddRunNext(s, [ch], ch);
    AddRunNext(s, [ch, ch], ch);
    AddRunNext(s, [ch, ch, ch], ch);
    assert [] + [ch] == [ch] && [ch] + [ch] == [ch, ch] && [ch, ch] + [ch] == [ch, ch, ch];
    assert [ch, ch, ch] + [ch] == [ch, ch, ch, ch];
  }

  /** Left alone, with its sc let through, a hart finishes one atomic_add in four instructions: the word has
      grown by the addend modulo 2^64, no other hart has moved, and all reservations are gone. */
  lemma AddAlone(s: AddState, k: nat)
    requires k < |s.harts| && s.harts[k].pc == AtLr && s.harts[k].todo != []
    ensures var ch, i := Choice(k, true), s.harts[k].todo[0];
            AddRun(s, [ch, ch, ch, ch]) ==
            AddState(Cell((s.cell.word + i) % TWO_64, {}), s.harts[k := Adder(AtLr, s.harts[k].todo[1..])])
  {
    FourSteps(s, Choice(k, true));
    AddMod(s.cell.word, 0, s.harts[k].todo[0], s.cell.word);
  }

  /** When the sc is not let through, the same four instructions lead back to the start: nothing is added and
      nothing finished. */
  lemma AddRetries(s: AddState, k: nat)
    requires k < |s.harts| && s.harts[k].pc == AtLr && s.harts[k].todo != []
    ensures var ch := Choice(k, false);
            var t := AddRun(s, [ch, ch, ch, ch]);
            t == AddState(Cell(s.cell.word, s.cell.reserved - {k}), s.harts)
  {
    FourSteps(s, Choice(k, false));
    assert s.cell.reserved + {k} - {k} == s.cell.reserved - {k};
  }

  // ----- example_14_7_cmpxchg.c

  datatype CasPc = AtLoad | AtBne(result: u64) | AtStore(result: u64) | AtRetry(result: u64, tmp: nat)
                 | Returned(result: u64)

  datatype CasHart = CasHart(pc: CasPc, expected: u64, desired: u64)

  datatype CasState = CasState(cell: Cell, harts: seq<CasHart>)

  /** One instruction of a hart, or any other store to the word. */
  datatype CasAction = Execute(hart: nat, scOk: bool) | Store(v: u64)

  function CasStep(s: CasState, a: CasAction): CasState {
    match a
    case Store(v) => s.(cell := Cell(v, {}))
    case Execute(k, scOk) =>
      if k >= |s.harts| then s
      else
        var h := s.harts[k];
        match h.pc
        case AtLoad => CasState(Lr(s.cell, k), s.harts[k := h.(pc := AtBne(s.cell.word))])
        case AtBne(result) =>
          s.(harts := s.harts[k := h.(pc := if result != h.expected then Returned(result) else AtStore(result))])
        case AtStore(result) =>
          if scOk && k in s.cell.reserved
          then CasState(ScOk(s.cell, h.desired), s.harts[k := h.(pc := AtRetry(result, 0))])
          else CasState(ScFail(s.cell, k), s.harts[k := h.(pc := AtRetry(result, 1))])
        case AtRetry(result, tmp) =>
          s.(harts := s.harts[k := h.(pc := if tmp != 0 then AtLoad else Returned(result))])
        case Returned(_) => s
  }

  /** The atomic operation: each hart's compare-and-swap is pending or has returned the value it saw. */
  datatype Call = Pending(expected: u64, desired: u64) | Done(result: u64)

  datatype Atomic = Atomic(word: u64, calls: seq<Call>)

  /** The whole of cmpxchg in one step. */
  function AtomicCas(t: Atomic, k: nat): Atomic
    requires k < |t.calls| && t.calls[k].Pending?
  {
    var c := t.calls[k];
    Atomic(if t.word == c.expected then c.desired else t.word, t.calls[k := Done(t.word)])
  }

  /** A call counts as done from the load of a different value or from the successful store on. */
  function CallOf(h: CasHart): Call {
    match h.pc
    case AtLoad => Pending(h.expected, h.desired)
    case AtBne(result) => if result != h.expected then Done(result) else Pending(h.expected, h.desired)
    case AtStore(_) => Pending(h.expected, h.desired)
    case AtRetry(result, tmp) => if tmp == 0 then Done(result) else Pending(h.expected, h.desired)
    case Returned(result) => Done(result)
  }

  function Abstract(s: CasState): Atomic {
    Atomic(s.cell.word, seq(|s.harts|, k requires 0 <= k < |s.harts| => CallOf(s.harts[k])))
  }

  /** A hart about to store has seen the expected value, which memory still holds while it is reserved. */
  ghost predicate Consistent(s: CasState) {
    forall k: nat | k < |s.harts| ::
      var h := s.harts[k];
      && (h.pc.AtStore? ==> h.pc.result == h.expected)
      && (k in s.cell.reserved && (h.pc.AtBne? || h.pc.AtStore?) ==> h.pc.result == s.cell.word)
  }

  /** What an action may do to the abstract state: a foreign store writes the word; an instruction does
      nothing, or completes its own hart's compare-and-swap. */
  ghost predicate AtomicStep(t: Atomic, t': Atomic, a: CasAction) {
    match a
    case Store(v) => t' == t.(word := v)
    case Execute(k, _) => t' == t || (k < |t.calls| && t.calls[k].Pending? && t' == AtomicCas(t, k))
  }

  lemma CasStepConsistent(s: CasState, a: CasAction)
    requires Consistent(s)
    ensures Consistent(CasStep(s, a))
  {
  }

  /** Every instruction refines the atomic compare-and-swap: a hart's call takes effect in one step, and
      the value returned is the one that step saw. */
  lemma CasStepRefines(s: CasState, a: CasAction)
    requires Consistent(s)
    ensures AtomicStep(Abstract(s), Abstract(CasStep(s, a)), a)
  {
    var t, t' := Abstract(s), Abstract(CasStep(s, a));
    match a
    case Store(v) => assert t' == t.(word := v);
    case Execute(k, scOk) =>
      if k < |s.harts| {
        var h := s.harts[k];
        if (h.pc.AtLoad? && s.cell.word != h.expected) || (h.pc.AtStore? && scOk && k in s.cell.reserved) {
          assert t' == AtomicCas(t, k);
        } else {
          assert t' == t;
        }
      }
  }

  function CasRun(s: CasState, actions: seq<CasAction>): CasState {
    if actions == [] then s else CasStep(CasRun(s, actions[..|actions| - 1]), actions[|actions| - 1])
  }

  /** Over any interleaving from the start of the calls: a hart that has returned gives the result of its
      one atomic step, and the word is what the atomic steps and foreign stores made of it. */
  lemma {:induction false} CasRunRefines(s: CasState, actions: seq<CasAction>)
    requires forall h | h in s.harts :: h.pc == AtLoad
    ensures var t := CasRun(s, actions);
            && Consistent(t) && |t.harts| == |s.harts|
            && AtomicRun(Abstract(s), Abstract(t), actions)
            && forall k | 0 <= k < |t.harts| && t.harts[k].pc.Returned? ::
                 Abstract(t).calls[k] == Done(t.harts[k].pc.result)
  {
    hide CasStep, AtomicStep, Consistent;
    if actions == [] {
      AllAtLoad(s);
    } else {
      var before := CasRun(s, actions[..|actions| - 1]);
      var a := actions[|actions| - 1];
      CasRunRefines(s, actions[..|actions| - 1]);
      CasStepConsistent(before, a);
      CasStepRefines(before, a);
      SameHarts(before, a);
    }
  }

  lemma AllAtLoad(s: CasState)
    requires forall h | h in s.harts :: h.pc == AtLoad
    ensures Consistent(s) && forall k | 0 <= k < |s.harts| :: s.harts[k].pc == AtLoad
  {
  }

  lemma SameHarts(s: CasState, a: CasAction)
    ensures |CasStep(s, a).harts| == |s.harts|
  {
  }

  /** The abstract state is reached by one such step for each action. */
  ghost predicate AtomicRun(t: Atomic, t': Atomic, actions: seq<CasAction>)
    decreases |actions|
  {
    if actions == [] then t' == t
    else
      var before, last := actions[..|actions| - 1], actions[|actions| - 1];
      exists u :: AtomicRun(t, u, before) && AtomicStep(u, t', last)
  }

  lemma CasRunNext(s: CasState, actions: seq<CasAction>, a: CasAction)
    ensures CasRun(s, actions + [a]) == CasStep(CasRun(s, actions), a)
  {
    assert (actions + [a])[..|actions|] == actions;
  }

  lemma CasSteps(s: CasState, a: CasAction)
    ensures CasRun(s, [a, a]) == CasStep(CasStep(s, a), a)
    ensures CasRun(s, [a, a, a, a]) == CasStep(CasStep(CasStep(CasStep(s, a), a), a), a)
  {
    hide CasStep;
    CasRunNext(s, [], a);
    CasRunNext(s, [a], a);
    CasRunNext(s, [a, a], a);
    CasRunNext(s, [a, a, a], a);
    assert [] + [a] == [a] && [a] + [a] == [a, a] && [a, a] + [a] == [a, a, a] && [a, a, a] + [a] == [a, a, a, a];
  }

  /** Left alone, with its sc let through, a hart finishes one cmpxchg: in two instructions without a store
      when the word is not the expected one, else in four with the desired word stored. Either way it
      returns the word it found. */
  lemma CasAlone(s: CasState, k: nat)
    requires k < |s.harts| && s.harts[k].pc == AtLoad
    ensures var a, h := Execute(k, true), s.harts[k];
            var done := s.harts[k := h.(pc := Returned(s.cell.word))];
            if s.cell.word != h.expected
            then CasRun(s, [a, a]).harts == done && CasRun(s, [a, a]).cell.word == s.cell.word
            else CasRun(s, [a, a, a, a]) == CasState(Cell(h.desired, {}), done)
  {
    CasSteps(s, Execute(k, true));
  }

  /** And when its sc is not let through, it is back at the start after four, with the word as it was. */
  lemma CasRetries(s: CasState, k: nat)
    requires k < |s.harts| && s.harts[k].pc == AtLoad && s.cell.word == s.harts[k].expected
    ensures var a := Execute(k, false);
            var t := CasRun(s, [a, a, a, a]);
            t == CasState(Cell(s.cell.word, s.cell.reserved - {k}), s.harts)
  {
    CasSteps(s, Execute(k, false));
    assert s.cell.reserved + {k} - {k} == s.cell.reserved - {k};
  }
}
