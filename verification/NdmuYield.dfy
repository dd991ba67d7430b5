/** The yield state word shared by the kernel threads and Rosalina: updates by load-exclusive and
    store-exclusive retry loops, interleaved step by step. */
module NdmuYield {

  // ----- updates of the word

  datatype Update = SetBits(bits: bv32) | ClearBits(bits: bv32) | Reset

  function Or(w: bv32, bits: bv32): bv32 { w | bits }

  function Without(w: bv32, bits: bv32): bv32 { w & !bits }

  function Apply(u: Update, w: bv32): bv32 {
    match u
    case SetBits(bits) => Or(w, bits)
    case ClearBits(bits) => Without(w, bits)
    case Reset => 0
  }

  /** The updates of a log one after the other. */
  function ApplyAll(w: bv32, log: seq<Update>): bv32 {
    if log == [] then w else Apply(log[|log| - 1], ApplyAll(w, log[..|log| - 1]))
  }

  // ----- the machine

  /** A thread is outside the three functions, about to load, or about to store f(seen). */
  datatype Local = Outside | Loading(u: Update) | Storing(u: Update, seen: bv32)

  /** The word, the threads whose exclusive monitor is set, and the updates stored so far. */
  datatype Machine = Machine(word: bv32, locals: map<nat, Local>, reserved: set<nat>, log: seq<Update>)

  /** Call starts one of the functions; Load is ldrex, Store is strex with its outcome; Lose is the loss of a
      reservation for any other reason, such as a context switch. */
  datatype Action = Call(t: nat, u: Update) | Load(t: nat) | Store(t: nat, ok: bool) | Lose(t: nat)

  function LocalOf(m: Machine, t: nat): Local {
    if t in m.locals then m.locals[t] else Outside
  }

  /** A strex may succeed only while the monitor is set; it may fail at any time. */
  predicate Enabled(m: Machine, a: Action) {
    match a
    case Call(t, u) => LocalOf(m, t).Outside?
    case Load(t) => LocalOf(m, t).Loading?
    case Store(t, ok) => LocalOf(m, t).Storing? && (ok ==> t in m.reserved)
    case Lose(t) => true
  }

  /** A successful store clears every monitor, a failed one the thread's own and retries. */
  function Act(m: Machine, a: Action): Machine
    requires Enabled(m, a)
  {
    match a
    case Call(t, u) => m.(locals := m.locals[t := Loading(u)])
    case Load(t) =>
      m.(locals := m.locals[t := Storing(m.locals[t].u, m.word)], reserved := m.reserved + {t})
    case Store(t, ok) =>
      var Storing(u, seen) := m.locals[t];
      if ok then Machine(Apply(u, seen), m.locals[t := Outside], {}, m.log + [u])
      else m.(locals := m.locals[t := Loading(u)], reserved := m.reserved - {t})
    case Lose(t) => m.(reserved := m.reserved - {t})
  }

  /** The word is what the completed updates make of the initial value, and a thread with a reservation has
      seen the present word. */
  ghost predicate Inv(init: bv32, m: Machine) {
    && m.word == ApplyAll(init, m.log)
    && forall t :: t in m.reserved ==> LocalOf(m, t).Storing? && LocalOf(m, t).seen == m.word
  }

  lemma ActKeepsInv(init: bv32, m: Machine, a: Action)
    requires Inv(init, m) && Enabled(m, a)
    ensures Inv(init, Act(m, a))
  {
    if a.Store? && a.ok {
      var u := m.locals[a.t].u;
      assert (m.log + [u])[..|m.log|] == m.log;
    }
  }

  /** A call with no other thread in between completes in three steps and has its effect. */
  lemma AloneCompletes(m: Machine, t: nat, u: Update)
    requires LocalOf(m, t).Outside?
    ensures Enabled(m, Call(t, u))
    ensures var m1 := Act(m, Call(t, u));
            && Enabled(m1, Load(t))
            && var m2 := Act(m1, Load(t));
               && Enabled(m2, Store(t, true)) && Enabled(m2, Store(t, false)) && Enabled(m2, Lose(t))
               && var m3 := Act(m2, Store(t, true));
                  m3.word == Apply(u, m.word) && m3.log == m.log + [u] && LocalOf(m3, t).Outside?
  {
  }

  /** A store by one thread makes the store of every other one fail, which then loads again. */
  lemma StoreExcludes(m: Machine, s: nat, t: nat)
    requires s != t && Enabled(m, Store(s, true)) && LocalOf(m, t).Storing?
    ensures var m1 := Act(m, Store(s, true));
            && !Enabled(m1, Store(t, true)) && Enabled(m1, Store(t, false))
            && var m2 := Act(m1, Store(t, false));
               Enabled(m2, Load(t)) && m2.word == m1.word && LocalOf(m2, t).u == LocalOf(m, t).u
  {
  }

  /** A load reserves for its own thread only; losing a reservation takes that one only. */
  lemma OwnReservation(m: Machine, t: nat, s: nat)
    requires LocalOf(m, t).Loading?
    ensures s in Act(m, Load(t)).reserved <==> s == t || s in m.reserved
    ensures s in Act(m, Lose(t)).reserved <==> s != t && s in m.reserved
  {
  }

  ghost predicate IsRun(ms: seq<Machine>, acts: seq<Action>) {
    && |ms| == |acts| + 1
    && forall i :: 0 <= i < |acts| ==> Enabled(ms[i], acts[i]) && ms[i + 1] == Act(ms[i], acts[i])
  }

  /** The updates whose store succeeded in a run, in that order. */
  function Completed(ms: seq<Machine>, acts: seq<Action>): seq<Update>
    requires IsRun(ms, acts)
    decreases |acts|
  {
    if acts == [] then []
    else
      var n := |acts| - 1;
      var before := Completed(ms[..n + 1], acts[..n]);
      if acts[n].Store? && acts[n].ok then before + [ms[n].locals[acts[n].t].u] else before
  }

  /** For any number of threads and any interleaving, the word is at every point the initial value with the
      completed updates applied one by one in the order of their successful stores: none is lost. */
  lemma {:induction false} NoUpdateLost(init: bv32, ms: seq<Machine>, acts: seq<Action>)
    requires IsRun(ms, acts) && ms[0] == Machine(init, map[], {}, [])
    ensures Inv(init, ms[|acts|]) && ms[|acts|].log == Completed(ms, acts)
    ensures ms[|acts|].word == ApplyAll(init, Completed(ms, acts))
    decreases |acts|
  {
    if |acts| > 0 {
      var n := |acts| - 1;
      assert IsRun(ms[..n + 1], acts[..n]);
      NoUpdateLost(init, ms[..n + 1], acts[..n]);
      ActKeepsInv(init, ms[n], acts[n]);
      assert ms[n + 1] == Act(ms[n], acts[n]);
    }
  }

  // ----- which update a bit comes from

  /** The bits of a word under a mask. */
  function Under(w: bv32, m: bv32): bv32 { w & m }

  /** The update decides every bit of the mask. */
  predicate Covers(u: Update, m: bv32) {
    u.Reset? || Under(u.bits, m) == m
  }

  /** The update decides no bit of the mask; for a mask of one bit, the opposite of covering. */
  predicate Misses(u: Update, m: bv32) {
    if u.Reset? then m == 0 else Under(u.bits, m) == 0
  }

  lemma ApplyToMask(u: Update, w: bv32, m: bv32)
    ensures Covers(u, m) ==> Under(Apply(u, w), m) == if u.SetBits? then m else 0
    ensures Misses(u, m) ==> Under(Apply(u, w), m) == Under(w, m)
  {
    hide Under, Or, Without;
    match u
    case SetBits(bits) => OrUnder(w, bits, m);
    case ClearBits(bits) => WithoutUnder(w, bits, m);
    case Reset => NoneUnder(w, m);
  }

  lemma OrUnder(w: bv32, bits: bv32, m: bv32)
    ensures Under(bits, m) == m ==> Under(Or(w, bits), m) == m
    ensures Under(bits, m) == 0 ==> Under(Or(w, bits), m) == Under(w, m)
  {
  }

  lemma WithoutUnder(w: bv32, bits: bv32, m: bv32)
    ensures Under(bits, m) == m ==> Under(Without(w, bits), m) == 0
    ensures Under(bits, m) == 0 ==> Under(Without(w, bits), m) == Under(w, m)
  {
  }

  lemma NoneUnder(w: bv32, m: bv32)
    ensures Under(0, m) == Under(w, 0) == 0
  {
  }

  /** Bits that the later completed updates leave alone are what the last update that covers them made of
      them: set after a set, clear after a clear or a reset. */
  lemma {:induction false} LastUpdateDecides(w: bv32, log: seq<Update>, k: nat, m: bv32)
    requires k < |log| && Covers(log[k], m)
    requires forall i :: k < i < |log| ==> Misses(log[i], m)
    ensures Under(ApplyAll(w, log), m) == if log[k].SetBits? then m else 0
    decreases |log|
  {
    hide Under, Covers, Misses, Apply;
    var n := |log| - 1;
    ApplyToMask(log[n], ApplyAll(w, log[..n]), m);
    if k < n { LastUpdateDecides(w, log[..n], k, m); }
  }

  // ----- waiting

  const BIT_ASK: bv32 := 1
  const BIT_ACK: bv32 := 2

  /** `ndmuWaitForAck`, where env(i) is the word the i-th read finds: true exactly when the last read had ACK,
      bit 1, set, after at most 101 reads and 100 sleeps of 10 ms; false when it found ASK, bit 0, withdrawn or the
      time was up. */
  method WaitForAck(env: nat -> bv32) returns (acked: bool, looks: nat, sleeps: nat)
    ensures 1 <= looks <= 101 && sleeps == looks - 1
    ensures acked <==> env(looks - 1) & 2 != 0
    ensures !acked ==> env(looks - 1) & 1 == 0 || looks == 101
    ensures forall i :: 0 <= i < looks - 1 ==> env(i) & 2 == 0 && env(i) & 1 != 0
  {
    var iters := 0;
    looks, sleeps := 0, 0;
    while true
      invariant iters == looks == sleeps <= 100
      invariant forall i :: 0 <= i < looks ==> env(i) & 2 == 0 && env(i) & 1 != 0
      decreases 100 - iters
    {
      var state := env(looks);
      looks := looks + 1;
      if state & BIT_ACK != 0 { return true, looks, sleeps; }
      if state & BIT_ASK == 0 || iters >= 100 { return false, looks, sleeps; }
      sleeps := sleeps + 1;
      iters := iters + 1;
    }
  }
}
