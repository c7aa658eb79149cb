/** The hand-off of register values from the Modbus thread to the publishing thread. */
module Handoff {
  import opened Bytes

  /** Where the Modbus loop stands. */
  datatype ModbusPc = Reading | Locking | Storing | Signalling | Unlocking | Writing | Stopped

  /** Where the publishing loop stands; a wake-up remembers whether it was spurious. */
  datatype PublisherPc =
    Free | Holding | Waiting | Woken(spurious: bool) | Taking(spurious: bool) | Releasing | Publishing

  datatype Owner = Nobody | Modbus | Publisher

  /** A value the publisher took: the Modbus iteration it comes from (0 for none), and how it was woken. */
  datatype Take = Take(iteration: nat, value: Word, spurious: bool)

  /**
   * Both threads and what they share. `stores` is the history of values stored, `waitFrom` the number
   * of stores when the publisher last went to sleep, `clean` holds while every register access
   * succeeded and nobody else wrote the register.
   */
  datatype State = State(
    mutex: Owner, modbus: ModbusPc, publisher: PublisherPc,
    shared: Word, register: Word, reg: Word,
    stores: seq<Word>, taken: seq<Take>, waitFrom: nat, clean: bool)

  /** The atomic steps of the two loops and of their surroundings. */
  datatype Action =
    | ReadOk                     // nmbs_read_holding_registers succeeds
    | ReadException(junk: Word)  // a Modbus exception: the buffer keeps what it held
    | ReadFatal                  // any other error leaves the loop
    | ModbusLock | Store | Signal | ModbusUnlock
    | WriteOk | WriteException | WriteFatal
    | PublisherLock | Wait | SpuriousWake | Relock | TakeValue | PublisherUnlock | PublishDone
    | RegisterChanged(value: Word)  // another master writes the register

  ghost predicate Init(s: State) {
    && s.mutex == Nobody && s.modbus == Reading && s.publisher == Free
    && s.shared == 0 && s.stores == [] && s.taken == [] && s.waitFrom == 0 && s.clean
  }

  ghost predicate Enabled(s: State, a: Action) {
    match a
    case ReadOk => s.modbus == Reading
    case ReadException(_) => s.modbus == Reading
    case ReadFatal => s.modbus == Reading
    case ModbusLock => s.modbus == Locking && s.mutex == Nobody
    case Store => s.modbus == Storing
    case Signal => s.modbus == Signalling
    case ModbusUnlock => s.modbus == Unlocking
    case WriteOk => s.modbus == Writing
    case WriteException => s.modbus == Writing
    case WriteFatal => s.modbus == Writing
    case PublisherLock => s.publisher == Free && s.mutex == Nobody
    case Wait => s.publisher == Holding
    case SpuriousWake => s.publisher == Waiting
    case Relock => s.publisher.Woken? && s.mutex == Nobody
    case TakeValue => s.publisher.Taking?
    case PublisherUnlock => s.publisher == Releasing
    case PublishDone => s.publisher == Publishing
    case RegisterChanged(_) => true
  }

  /** The state after a step. A signal wakes the publisher when it waits and is lost otherwise. */
  function Step(s: State, a: Action): State {
    match a
    case ReadOk => s.(modbus := Locking, reg := s.register)
    case ReadException(junk) => s.(modbus := Locking, reg := junk, clean := false)
    case ReadFatal => s.(modbus := Stopped)
    case ModbusLock => s.(modbus := Storing, mutex := Modbus)
    case Store => s.(modbus := Signalling, shared := s.reg, stores := s.stores + [s.reg])
    case Signal =>
      s.(modbus := Unlocking, publisher := if s.publisher == Waiting then Woken(false) else s.publisher)
    case ModbusUnlock => s.(modbus := Writing, mutex := Nobody)
    case WriteOk =>
      s.(modbus := Reading, reg := Succ(s.reg), register := Succ(s.reg))
    case WriteException => s.(modbus := Stopped, clean := false)
    case WriteFatal => s.(modbus := Stopped)
    case PublisherLock => s.(publisher := Holding, mutex := Publisher)
    case Wait => s.(publisher := Waiting, mutex := Nobody, waitFrom := |s.stores|)
    case SpuriousWake => s.(publisher := Woken(true))
    case Relock =>
      (match s.publisher
       case Woken(b) => s.(publisher := Taking(b), mutex := Publisher)
       case _ => s)
    case TakeValue =>
      (match s.publisher
       case Taking(b) => s.(publisher := Releasing, taken := s.taken + [Take(|s.stores|, s.shared, b)])
       case _ => s)
    case PublisherUnlock => s.(publisher := Publishing, mutex := Nobody)
    case PublishDone => s.(publisher := Free)
    case RegisterChanged(v) => s.(register := v, clean := false)
  }

  ghost predicate Run(b: seq<State>, acts: seq<Action>) {
    && |b| == |acts| + 1 && Init(b[0])
    && forall i :: 0 <= i < |acts| ==> Enabled(b[i], acts[i]) && b[i + 1] == Step(b[i], acts[i])
  }

  /** The mutex protects what it should. */
  ghost predicate MutexInv(s: State) {
    && (s.modbus in {Storing, Signalling, Unlocking} <==> s.mutex == Modbus)
    && (s.publisher == Holding || s.publisher.Taking? || s.publisher == Releasing <==> s.mutex == Publisher)
  }

  /** The shared cell holds the value of the last iteration, and every value taken is one that was stored. */
  ghost predicate ValueInv(s: State) {
    && s.shared == (if s.stores == [] then 0 else s.stores[|s.stores| - 1])
    && forall i :: 0 <= i < |s.taken| ==> Genuine(s.taken[i], s.stores)
  }

  ghost predicate Genuine(t: Take, stores: seq<Word>) {
    && t.iteration <= |stores|
    && t.value == (if t.iteration == 0 then 0 else stores[t.iteration - 1])
    && (!t.spurious ==> t.iteration > 0)
  }

  function LastTaken(s: State): nat {
    if s.taken == [] then 0 else s.taken[|s.taken| - 1].iteration
  }

  /** A publisher that was signalled has a store to look at which is newer than all it took before. */
  ghost predicate OrderInv(s: State) {
    && Ordered(s.taken)
    && LastTaken(s) <= |s.stores| && s.waitFrom <= |s.stores|
    && (s.publisher == Waiting || s.publisher.Woken? || s.publisher.Taking? ==> LastTaken(s) <= s.waitFrom)
    && (s.publisher == Waiting && s.modbus == Signalling ==> s.waitFrom < |s.stores|)
    && (s.publisher == Woken(false) || s.publisher == Taking(false) ==> s.waitFrom < |s.stores|)
  }

  /** Iterations never decrease, and a take after a real signal is strictly newer than the one before. */
  ghost predicate Ordered(taken: seq<Take>) {
    forall i :: 0 < i < |taken| ==>
      && taken[i - 1].iteration <= taken[i].iteration
      && (!taken[i].spurious ==> taken[i - 1].iteration < taken[i].iteration)
  }

  /** While all goes well the register counts: iteration i stores the first value plus i, modulo 65536. */
  ghost predicate CountInv(s: State) {
    s.clean ==>
      && (forall i :: 0 < i < |s.stores| ==> s.stores[i] == Succ(s.stores[i - 1]))
      && (s.modbus == Reading && s.stores != [] ==> s.register == Succ(s.stores[|s.stores| - 1]))
      && (s.modbus in {Locking, Storing} && s.stores != [] ==> s.reg == Succ(s.stores[|s.stores| - 1]))
      && (s.modbus in {Signalling, Unlocking, Writing} ==> s.stores != [] && s.reg == s.stores[|s.stores| - 1])
  }

  function Succ(v: Word): Word {
    if v == 65535 then 0 else v + 1
  }

  ghost predicate Inv(s: State) {
    MutexInv(s) && ValueInv(s) && OrderInv(s) && CountInv(s)
  }

  lemma StepKeepsMutex(s: State, a: Action)
    requires MutexInv(s) && Enabled(s, a)
    ensures MutexInv(Step(s, a))
  {
  }

  lemma StepKeepsValues(s: State, a: Action)
    requires ValueInv(s) && OrderInv(s) && Enabled(s, a)
    ensures ValueInv(Step(s, a))
  {
    hide Ordered;
    var t := Step(s, a);
    if a == Store {
      forall i | 0 <= i < |t.taken| ensures Genuine(t.taken[i], t.stores) {
        assert Genuine(s.taken[i], s.stores);
      }
    }
  }

  lemma StepKeepsOrder(s: State, a: Action)
    requires MutexInv(s) && OrderInv(s) && Enabled(s, a)
    ensures OrderInv(Step(s, a))
  {
    if a == TakeValue {
      TakeKeepsOrder(s);
    } else {
      OtherKeepsOrder(s, a);
    }
  }

  lemma TakeKeepsOrder(s: State)
    requires OrderInv(s) && s.publisher.Taking?
    ensures OrderInv(Step(s, TakeValue))
  {
  }

  lemma OtherKeepsOrder(s: State, a: Action)
    requires MutexInv(s) && OrderInv(s) && Enabled(s, a) && a != TakeValue
    ensures OrderInv(Step(s, a))
  {
    hide Ordered;
    assert Step(s, a).taken == s.taken;
  }

  lemma StepKeepsCount(s: State, a: Action)
    requires CountInv(s) && Enabled(s, a)
    ensures CountInv(Step(s, a))
  {
    hide Ordered;
  }

  /** The invariant holds in every state of every interleaving. */
  lemma {:induction false} RunKeepsInv(b: seq<State>, acts: seq<Action>, k: nat)
    requires Run(b, acts) && k < |b|
    ensures Inv(b[k])
    decreases k
  {
    hide MutexInv, ValueInv, OrderInv, CountInv, Step, Enabled;
    if k == 0 {
      InitInv(b[0]);
    } else {
      RunKeepsInv(b, acts, k - 1);
      var s, a := b[k - 1], acts[k - 1];
      assert b[k - 1 + 1] == Step(s, a);
      StepKeepsMutex(s, a);
      StepKeepsValues(s, a);
      StepKeepsOrder(s, a);
      StepKeepsCount(s, a);
    }
  }

  lemma InitInv(s: State)
    requires Init(s)
    ensures Inv(s)
  {
  }

  /**
   * Hand-off safety: every value published was stored by the Modbus iteration it is filed under (or is
   * the initial 0, after a spurious wake-up), and the iterations never go back.
   */
  lemma PublishedInOrder(b: seq<State>, acts: seq<Action>, k: nat)
    requires Run(b, acts) && k < |b|
    ensures var s := b[k];
            && (forall i :: 0 <= i < |s.taken| ==> Genuine(s.taken[i], s.stores))
            && (forall i, j :: 0 <= i < j < |s.taken| ==> s.taken[i].iteration <= s.taken[j].iteration)
  {
    RunKeepsInv(b, acts, k);
    var s := b[k];
    forall i, j | 0 <= i < j < |s.taken| ensures s.taken[i].iteration <= s.taken[j].iteration {
      OrderedPair(s.taken, i, j);
    }
  }

  lemma {:induction false} OrderedPair(taken: seq<Take>, i: nat, j: nat)
    requires Ordered(taken) && i < j < |taken|
    ensures taken[i].iteration <= taken[j].iteration
    ensures !taken[j].spurious ==> taken[i].iteration < taken[j].iteration
  {
    if i < j - 1 {
      OrderedPair(taken, i, j - 1);
    }
  }

  /** Stores only add up, one for each `Store`. */
  lemma {:induction false} StoresGrow(b: seq<State>, acts: seq<Action>, i: nat, j: nat)
    requires Run(b, acts) && i <= j < |b|
    ensures |b[i].stores| <= |b[j].stores|
    ensures |b[i].stores| == |b[j].stores| <==> forall k :: i <= k < j ==> acts[k] != Store
    decreases j - i
  {
    hide Enabled, Init;
    if i < j {
      StoresGrow(b, acts, i, j - 1);
      assert b[j - 1 + 1] == Step(b[j - 1], acts[j - 1]);
      StoresStep(b[j - 1], acts[j - 1]);
    }
  }

  lemma StoresStep(s: State, a: Action)
    ensures |Step(s, a).stores| == |s.stores| + if a == Store then 1 else 0
  {
  }

  /** `from` is where the stretch begins that leads to step `t` without a take: after the last one, or at the start. */
  ghost predicate SinceTake(acts: seq<Action>, from: nat, t: nat) {
    && from <= t < |acts|
    && (from == 0 || acts[from - 1] == TakeValue)
    && forall k :: from <= k < t ==> acts[k] != TakeValue
  }

  /** The iteration taken last is the number of stores at the beginning of the stretch. */
  lemma {:induction false} LastTakenIs(b: seq<State>, acts: seq<Action>, from: nat, t: nat)
    requires Run(b, acts) && from <= t < |b| && (from == 0 || acts[from - 1] == TakeValue)
    requires forall k :: from <= k < t ==> acts[k] != TakeValue
    ensures LastTaken(b[t]) == |b[from].stores|
    decreases t - from
  {
    hide Enabled;
    if from < t {
      LastTakenIs(b, acts, from, t - 1);
      assert b[t - 1 + 1] == Step(b[t - 1], acts[t - 1]);
      TakenStep(b[t - 1], acts[t - 1]);
    } else if from > 0 {
      assert Enabled(b[from - 1], acts[from - 1]) && b[from - 1 + 1] == Step(b[from - 1], acts[from - 1]);
      TakeIs(b[from - 1]);
    }
  }

  lemma TakenStep(s: State, a: Action)
    requires a != TakeValue
    ensures Step(s, a).taken == s.taken
  {
  }

  lemma TakeIs(s: State)
    requires Enabled(s, TakeValue)
    ensures var t := Step(s, TakeValue);
            t.stores == s.stores && t.taken == s.taken + [Take(|s.stores|, s.shared, s.publisher.spurious)]
  {
  }

  /**
   * When a reading is published again: a take repeats the iteration of the take before it (or the initial
   * value, when it is the first) if and only if nothing was stored in between; and then the publisher
   * was woken spuriously.
   */
  lemma RepeatsExactly(b: seq<State>, acts: seq<Action>, from: nat, t: nat)
    requires Run(b, acts) && SinceTake(acts, from, t) && acts[t] == TakeValue
    ensures |b[t + 1].taken| == |b[t].taken| + 1
    ensures var take := b[t + 1].taken[|b[t].taken|];
            && (take.iteration == LastTaken(b[t]) <==> forall k :: from <= k < t ==> acts[k] != Store)
            && (take.iteration == LastTaken(b[t]) ==> take.spurious)
  {
    hide Step;
    assert Enabled(b[t], acts[t]) && b[t + 1] == Step(b[t], acts[t]);
    TakeIs(b[t]);
    LastTakenIs(b, acts, from, t);
    StoresGrow(b, acts, from, t);
    RunKeepsInv(b, acts, t);
  }

  /** Without spurious wake-ups no reading is published twice or out of order. */
  lemma NoReadingTwice(b: seq<State>, acts: seq<Action>, k: nat)
    requires Run(b, acts) && k < |b|
    requires SpuriousWake !in acts
    ensures var s := b[k];
            forall i, j :: 0 <= i < j < |s.taken| ==> 0 < s.taken[i].iteration < s.taken[j].iteration
  {
    RunKeepsInv(b, acts, k);
    NeverSpurious(b, acts, k);
    var s := b[k];
    forall i, j | 0 <= i < j < |s.taken| ensures 0 < s.taken[i].iteration < s.taken[j].iteration {
      OrderedPair(s.taken, i, j);
      assert Genuine(s.taken[i], s.stores);
    }
  }

  lemma {:induction false} NeverSpurious(b: seq<State>, acts: seq<Action>, k: nat)
    requires Run(b, acts) && k < |b| && SpuriousWake !in acts
    ensures b[k].publisher != Woken(true) && b[k].publisher != Taking(true)
    ensures forall i :: 0 <= i < |b[k].taken| ==> !b[k].taken[i].spurious
    decreases k
  {
    if k > 0 {
      NeverSpurious(b, acts, k - 1);
      assert acts[k - 1] != SpuriousWake;
      assert b[k - 1 + 1] == Step(b[k - 1], acts[k - 1]);
    }
  }

  /** With only this task on the register, what is published counts up from the first reading. */
  lemma PublishedValues(b: seq<State>, acts: seq<Action>, k: nat, i: nat)
    requires Run(b, acts) && k < |b| && b[k].clean && i < |b[k].taken| && b[k].taken[i].iteration > 0
    ensures b[k].stores != []
    ensures b[k].taken[i].value == (b[k].stores[0] + (b[k].taken[i].iteration - 1)) % 65536
  {
    RunKeepsInv(b, acts, k);
    var s := b[k];
    assert Genuine(s.taken[i], s.stores);
    Counting(s.stores, s.taken[i].iteration - 1);
  }

  lemma {:induction false} Counting(stores: seq<Word>, i: nat)
    requires i < |stores| && forall j :: 0 < j < |stores| ==> stores[j] == Succ(stores[j - 1])
    ensures stores[i] == (stores[0] + i) % 65536
  {
    if i > 0 {
      Counting(stores, i - 1);
      SuccMod(stores[0] as nat + (i - 1));
    }
  }

  lemma SuccMod(n: nat)
    ensures (n + 1) % 65536 == Succ(n % 65536)
  {
  }

  /** A spurious wake-up does publish: here the initial 0, which no iteration stored. */
  lemma SpuriousWakePublishes(s0: State) returns (b: seq<State>, acts: seq<Action>)
    requires Init(s0)
    ensures Run(b, acts) && b[0] == s0 && b[|b| - 1].taken == [Take(0, 0, true)] && b[|b| - 1].stores == []
  {
    hide Run;
    StartRun(s0);
    var s := s0;
    b, acts := [s0], [];
    b, acts, s := Sleeps(b, acts, s);
    b, acts, s := Do(b, acts, s, SpuriousWake);
    b, acts, s := Publishes(b, acts, s);
  }

  lemma Extend(b: seq<State>, acts: seq<Action>, a: Action)
    requires Run(b, acts) && Enabled(b[|b| - 1], a)
    ensures Run(b + [Step(b[|b| - 1], a)], acts + [a])
  {
    hide Step, Enabled;
  }

  lemma StartRun(s0: State)
    requires Init(s0)
    ensures Run([s0], [])
  {
  }

  lemma Do(b: seq<State>, acts: seq<Action>, s: State, a: Action)
    returns (b1: seq<State>, acts1: seq<Action>, s1: State)
    requires Run(b, acts) && |b| > 0 && s == b[|b| - 1] && Enabled(s, a)
    ensures Run(b1, acts1) && |b1| > 0 && b1[0] == b[0] && s1 == Step(s, a) && s1 == b1[|b1| - 1]
  {
    Extend(b, acts, a);
    s1 := Step(s, a);
    b1, acts1 := b + [s1], acts + [a];
  }

  /** The publisher goes to sleep. */
  lemma Sleeps(b: seq<State>, acts: seq<Action>, s: State) returns (b1: seq<State>, acts1: seq<Action>, s1: State)
    requires Run(b, acts) && |b| > 0 && s == b[|b| - 1] && s.publisher == Free && s.mutex == Nobody
    ensures Run(b1, acts1) && |b1| > 0 && b1[0] == b[0] && s1 == b1[|b1| - 1]
    ensures s1 == s.(publisher := Waiting, waitFrom := |s.stores|)
  {
    hide Run;
    b1, acts1, s1 := Do(b, acts, s, PublisherLock);
    b1, acts1, s1 := Do(b1, acts1, s1, Wait);
  }

  /** A Modbus iteration up to its write, with the publisher asleep. */
  lemma Iterates(b: seq<State>, acts: seq<Action>, s: State) returns (b1: seq<State>, acts1: seq<Action>, s1: State)
    requires Run(b, acts) && |b| > 0 && s == b[|b| - 1]
    requires s.modbus == Reading && s.publisher == Waiting && s.mutex == Nobody
    ensures Run(b1, acts1) && |b1| > 0 && b1[0] == b[0] && s1 == b1[|b1| - 1]
    ensures s1 == s.(modbus := Writing, publisher := Woken(false), reg := s.register, shared := s.register,
                     stores := s.stores + [s.register])
  {
    hide Run;
    b1, acts1, s1 := Do(b, acts, s, ReadOk);
    b1, acts1, s1 := Do(b1, acts1, s1, ModbusLock);
    b1, acts1, s1 := Do(b1, acts1, s1, Store);
    b1, acts1, s1 := Do(b1, acts1, s1, Signal);
    b1, acts1, s1 := Do(b1, acts1, s1, ModbusUnlock);
  }

  /** A woken publisher takes the value and publishes it. */
  lemma Publishes(b: seq<State>, acts: seq<Action>, s: State) returns (b1: seq<State>, acts1: seq<Action>, s1: State)
    requires Run(b, acts) && |b| > 0 && s == b[|b| - 1] && s.publisher.Woken? && s.mutex == Nobody
    ensures Run(b1, acts1) && |b1| > 0 && b1[0] == b[0] && s1 == b1[|b1| - 1]
    ensures s1 == s.(publisher := Free, taken := s.taken + [Take(|s.stores|, s.shared, s.publisher.spurious)])
  {
    hide Run;
    b1, acts1, s1 := Do(b, acts, s, Relock);
    b1, acts1, s1 := Do(b1, acts1, s1, TakeValue);
    b1, acts1, s1 := Do(b1, acts1, s1, PublisherUnlock);
    b1, acts1, s1 := Do(b1, acts1, s1, PublishDone);
  }

  /** And here a value that was published before: the second take is of the same iteration. */
  lemma SpuriousWakeRepeats(s0: State) returns (b: seq<State>, acts: seq<Action>)
    requires Init(s0)
    ensures Run(b, acts) && b[0] == s0 && b[|b| - 1].stores == [s0.register]
    ensures b[|b| - 1].taken == [Take(1, s0.register, false), Take(1, s0.register, true)]
  {
    hide Run;
    StartRun(s0);
    var s := s0;
    b, acts := [s0], [];
    b, acts, s := Sleeps(b, acts, s);
    b, acts, s := Iterates(b, acts, s);
    b, acts, s := Publishes(b, acts, s);
    b, acts, s := Sleeps(b, acts, s);
    b, acts, s := Do(b, acts, s, SpuriousWake);
    b, acts, s := Publishes(b, acts, s);
  }
}
