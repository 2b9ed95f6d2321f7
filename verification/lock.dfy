/**
  Concurrency/src/ReentrantLock.cpp: any number of threads, each of whose memory accesses to the shared word is
  one step, interleaved in any order.
*/
module ReentrantLocks {
  import opened Words

  /** Thread identifiers are non-zero 32-bit words. */
  type Tid = t: nat | 0 < t < TWO32 witness 1

  /** The 64-bit word `exclusive`: the owner below, the nesting depth above. */
  datatype Word = Word(low: nat, high: nat)

  const FREE := Word(0, 0)

  function Value(w: Word): nat {
    w.low + TWO32 * w.high
  }

  predicate Proper(w: Word) {
    w.low < TWO32 && w.high < TWO32
  }

  /** `exclusive += 1ULL << 32` */
  function Plus(w: Word): Word {
    Word(w.low, (w.high + 1) % TWO32)
  }

  /** `exclusive -= 1ULL << 32` */
  function Minus(w: Word): Word {
    Word(w.low, (w.high + TWO32 - 1) % TWO32)
  }

  /** Adding and subtracting 2^32 in 64 bits moves the upper half only. */
  lemma HalvesMove(w: Word)
    requires Proper(w)
    ensures Proper(Plus(w)) && Value(Plus(w)) == (Value(w) + TWO32) % TWO64
    ensures Proper(Minus(w)) && Value(Minus(w)) == (Value(w) + TWO64 - TWO32) % TWO64
    ensures Plus(Minus(w)) == w == Minus(Plus(w))
    ensures Value(w) == 0 <==> w == FREE
  {
  }

  /** Where a thread is: before the access that the name tells of. */
  datatype PC =
    | Outside
    | Cas            // operator+: compare-exchange of the lower half with 0
    | Check          // load: is the owner this thread?
    | Load           // `+=`: load ...
    | Store(v: Word) // ... and store
    | Belongs        // operator--: load, is the owner this thread?
    | LoadBack       // `-=`: load ...
    | StoreBack(v: Word)
    | Test           // load: is the depth zero?
    | Clear          // store 0

  /** `held` counts the acquisitions not yet released: it moves with the stores of `+=` and `-=`. */
  datatype Thread = Thread(pc: PC, held: nat)

  datatype State = State(word: Word, threads: map<Tid, Thread>)

  function Put(s: State, t: Tid, w: Word, pc: PC, held: nat): State {
    State(w, s.threads[t := Thread(pc, held)])
  }

  /** One access by thread `t`, or the start of a call. */
  predicate Step(s: State, s': State, t: Tid) {
    t in s.threads &&
    var w, held := s.word, s.threads[t].held;
    match s.threads[t].pc
    case Outside => s' == Put(s, t, w, Cas, held) || s' == Put(s, t, w, Belongs, held)
    case Cas => s' == Put(s, t, if w.low == 0 then Word(t, w.high) else w, Check, held)
    case Check => s' == Put(s, t, w, if w.low != t then Outside else Load, held)
    case Load => s' == Put(s, t, w, Store(w), held)
    case Store(v) => s' == Put(s, t, Plus(v), Outside, held + 1)
    case Belongs => s' == Put(s, t, w, if w.low != t then Outside else LoadBack, held)
    case LoadBack => s' == Put(s, t, w, StoreBack(w), held)
    case StoreBack(v) => s' == Put(s, t, Minus(v), Test, if held > 0 then held - 1 else 0)
    case Test => s' == Put(s, t, w, if w.high == 0 then Clear else Outside, held)
    case Clear => s' == Put(s, t, FREE, Outside, held)
  }

  predicate Initial(s: State) {
    s.word == FREE && forall t :: t in s.threads ==> s.threads[t] == Thread(Outside, 0)
  }

  /** What a thread that does not own the word looks like. */
  predicate Stranger(th: Thread) {
    th.held == 0 && (th.pc.Outside? || th.pc.Cas? || th.pc.Check? || th.pc.Belongs?)
  }

  /** What the owner looks like: the depth is its count of acquisitions, and only it is in the middle of a change. */
  predicate Owner(th: Thread, w: Word) {
    && w.high == th.held % TWO32
    && match th.pc
       case Outside => th.held > 0
       case Cas => th.held > 0
       case Belongs => th.held > 0
       case Check => true
       case Load => true
       case Store(v) => v == w
       case LoadBack => th.held > 0
       case StoreBack(v) => v == w && th.held > 0
       case Test => true
       case Clear => w.high == 0
  }

  /** The invariant of all runs in which no word is cleared too early. */
  ghost predicate Inv(s: State) {
    && Proper(s.word)
    && (s.word.low == 0 ==> s.word == FREE)
    && (s.word.low != 0 ==> s.word.low in s.threads)
    && forall t :: t in s.threads ==>
         if s.word.low == t then Owner(s.threads[t], s.word) else Stranger(s.threads[t])
  }

  lemma InitialInv(s: State)
    requires Initial(s)
    ensures Inv(s)
  {
  }

  /** A thread is about to clear the word although it has more acquisitions to release: 2^32 or a multiple of it. */
  predicate ClearsHeld(s: State, t: Tid) {
    t in s.threads && s.threads[t].pc.Clear? && s.threads[t].held > 0 && s.threads[t].held % TWO32 == 0
  }

  /** Every step of every thread keeps the invariant, but for one that clears the word of a holder. */
  lemma StepInv(s: State, s': State, t: Tid)
    requires Inv(s) && Step(s, s', t) && !ClearsHeld(s, t)
    ensures Inv(s')
  {
    assert if s.word.low == t then Owner(s.threads[t], s.word) else Stranger(s.threads[t]);
    HalvesMove(s.word);
    if s.word.low == t { OwnerStep(s, s', t); } else { StrangerStep(s, s', t); }
  }

  lemma OwnerStep(s: State, s': State, t: Tid)
    requires Inv(s) && Step(s, s', t) && s.word.low == t && !ClearsHeld(s, t)
    ensures Inv(s')
  {
    var th, th' := s.threads[t], s'.threads[t];
    assert Owner(th, s.word);
    if th.pc.Store? { DepthUp(th.held); }
    if th.pc.StoreBack? { DepthDown(th.held); }
    if th.pc.Clear? {
      assert s'.word == FREE;
      forall u | u in s'.threads ensures Stranger(s'.threads[u]) {}
    } else {
      if th.pc.Test? && s.word.high != 0 { assert th.held > 0; }
      assert s'.word.low == t && Owner(th', s'.word);
      forall u | u in s'.threads && u != t ensures Stranger(s'.threads[u]) {}
    }
  }

  lemma StrangerStep(s: State, s': State, t: Tid)
    requires Inv(s) && Step(s, s', t) && s.word.low != t
    ensures Inv(s')
  {
    var th, th' := s.threads[t], s'.threads[t];
    assert Stranger(th);
    if th.pc.Cas? && s.word.low == 0 {
      assert s'.word == Word(t, 0) && Owner(th', s'.word);
      forall u | u in s'.threads && u != t ensures Stranger(s'.threads[u]) {}
    } else {
      assert s'.word == s.word && Stranger(th');
      forall u | u in s'.threads && u != t
        ensures if s'.word.low == u then Owner(s'.threads[u], s'.word) else Stranger(s'.threads[u])
      {}
    }
  }

  lemma DepthUp(held: nat)
    ensures (held % TWO32 + 1) % TWO32 == (held + 1) % TWO32
  {
    var q, r := held / TWO32, held % TWO32;
    if r + 1 < TWO32 {
      DivModUnique(held + 1, TWO32, q, r + 1);
    } else {
      DivModUnique(held + 1, TWO32, q + 1, 0);
    }
  }

  lemma DepthDown(held: nat)
    requires held > 0
    ensures (held % TWO32 + TWO32 - 1) % TWO32 == (held - 1) % TWO32
  {
    var q, r := held / TWO32, held % TWO32;
    if r > 0 {
      DivModUnique(held - 1, TWO32, q, r - 1);
      DivModUnique(r + TWO32 - 1, TWO32, 1, r - 1);
    } else {
      DivModUnique(held - 1, TWO32, q - 1, TWO32 - 1);
    }
  }

  // --- whole runs -----------------------------------------------------------------------------------------

  /** A run: its states and the thread that moves between each and the next. */
  ghost predicate Run(states: seq<State>, movers: seq<Tid>) {
    && |states| == |movers| + 1 && Initial(states[0])
    && forall i :: 0 <= i < |movers| ==> Step(states[i], states[i + 1], movers[i])
  }

  /** Up to state `n` of a run, no word is cleared that is still held. */
  ghost predicate ClearsNone(states: seq<State>, movers: seq<Tid>, n: nat)
    requires n <= |movers| <= |states|
  {
    forall i :: 0 <= i < n ==> !ClearsHeld(states[i], movers[i])
  }

  lemma {:induction false} RunInv(states: seq<State>, movers: seq<Tid>, n: nat)
    requires Run(states, movers) && n < |states| && ClearsNone(states, movers, n)
    ensures Inv(states[n])
  {
    if n == 0 {
      InitialInv(states[0]);
    } else {
      RunInv(states, movers, n - 1);
      StepInv(states[n - 1], states[n], movers[n - 1]);
    }
  }

  predicate Quiet(s: State) {
    forall t :: t in s.threads ==> s.threads[t].pc == Outside
  }

  /** A thread that has acquired more than it has released owns the word, whose depth is its count modulo 2^32. */
  predicate Safe(s: State) {
    forall t :: t in s.threads && s.threads[t].held > 0 ==>
      s.word.low == t && s.word.high == s.threads[t].held % TWO32
  }

  lemma InvSafe(s: State)
    requires Inv(s)
    ensures Safe(s)
  {
    forall t | t in s.threads && s.threads[t].held > 0
      ensures s.word.low == t && s.word.high == s.threads[t].held % TWO32
    {
      assert if s.word.low == t then Owner(s.threads[t], s.word) else Stranger(s.threads[t]);
    }
  }

  /**
    In every state of every run in which no held word is cleared: at most one thread has acquired more than it has
    released, and it is the owner; the depth is its count; a free word means that everything is released; and when no
    call is going on, everything released means that the word is zero.
  */
  lemma LockSafety(states: seq<State>, movers: seq<Tid>, n: nat)
    requires Run(states, movers) && n < |states| && ClearsNone(states, movers, n)
    ensures var s := states[n];
      && (forall t, u :: t in s.threads && u in s.threads && s.threads[t].held > 0 && s.threads[u].held > 0 ==> t == u)
      && (forall t :: t in s.threads && s.threads[t].held > 0 ==>
           s.word.low == t && s.word.high == s.threads[t].held % TWO32)
      && (Value(s.word) == 0 ==> forall t :: t in s.threads ==> s.threads[t].held == 0)
      && (Quiet(s) && (forall t :: t in s.threads ==> s.threads[t].held == 0) ==> Value(s.word) == 0)
  {
    RunInv(states, movers, n);
    HalvesMove(states[n].word);
    InvSafe(states[n]);
  }

  ghost predicate AllSafe(states: seq<State>) {
    forall n :: 0 <= n < |states| ==> Safe(states[n])
  }

  /** Every state of a run is safe if and only if no step of it clears a word that is still held. */
  lemma SafeExactly(states: seq<State>, movers: seq<Tid>)
    requires Run(states, movers)
    ensures AllSafe(states) <==> ClearsNone(states, movers, |movers|)
  {
    if ClearsNone(states, movers, |movers|) {
      forall n | 0 <= n < |states| ensures Safe(states[n]) {
        RunInv(states, movers, n);
        InvSafe(states[n]);
      }
    } else {
      var i :| 0 <= i < |movers| && ClearsHeld(states[i], movers[i]);
      assert Step(states[i], states[i + 1], movers[i]);
      assert movers[i] in states[i + 1].threads && states[i + 1].word.low == 0;
      assert !Safe(states[i + 1]);
    }
  }

  // --- the condition as the callers see it ----------------------------------------------------------------

  /** A release that brings the count of a thread down to a positive multiple of 2^32. */
  predicate DeepRelease(s: State, t: Tid) {
    t in s.threads && s.threads[t].pc.StoreBack? && s.threads[t].held > 1 && (s.threads[t].held - 1) % TWO32 == 0
  }

  predicate AtDepth(th: Thread) {
    (th.pc.Test? || th.pc.Clear?) && th.held > 0 && th.held % TWO32 == 0
  }

  /** No thread is behind the store of a deep release. */
  predicate Shallow(s: State) {
    forall t :: t in s.threads ==> !AtDepth(s.threads[t])
  }

  ghost predicate NoDeepRelease(states: seq<State>, movers: seq<Tid>, n: nat)
    requires n <= |movers| <= |states|
  {
    forall i :: 0 <= i < n ==> !DeepRelease(states[i], movers[i])
  }

  lemma ShallowStep(s: State, s': State, t: Tid)
    requires Shallow(s) && Step(s, s', t) && !DeepRelease(s, t)
    ensures Shallow(s')
  {
    assert !AtDepth(s.threads[t]);
    assert !AtDepth(s'.threads[t]);
    forall u | u in s'.threads && u != t ensures !AtDepth(s'.threads[u]) {
      assert s'.threads[u] == s.threads[u];
    }
  }

  lemma {:induction false} ShallowRun(states: seq<State>, movers: seq<Tid>, n: nat)
    requires Run(states, movers) && n < |states| && NoDeepRelease(states, movers, n)
    ensures Shallow(states[n])
  {
    if n > 0 {
      ShallowRun(states, movers, n - 1);
      ShallowStep(states[n - 1], states[n], movers[n - 1]);
    }
  }

  predicate Deep(s: State, u: Tid) {
    u in s.threads && AtDepth(s.threads[u])
  }

  /** A thread behind the store of a deep release stays there until it clears the word. */
  lemma DepthStep(s: State, s': State, t: Tid, u: Tid)
    requires Inv(s) && Step(s, s', t) && !ClearsHeld(s, t) && Deep(s, u)
    ensures Deep(s', u)
  {
    assert if s.word.low == u then Owner(s.threads[u], s.word) else Stranger(s.threads[u]);
  }

  lemma StepOfRun(states: seq<State>, movers: seq<Tid>, n: nat)
    requires Run(states, movers) && n < |movers| && ClearsNone(states, movers, n + 1)
    ensures ClearsNone(states, movers, n) && Inv(states[n])
    ensures Step(states[n], states[n + 1], movers[n]) && !ClearsHeld(states[n], movers[n])
  {
    RunInv(states, movers, n);
  }

  lemma {:induction false} DepthRun(states: seq<State>, movers: seq<Tid>, i: nat, n: nat, u: Tid)
    requires Run(states, movers) && i <= n < |states| && ClearsNone(states, movers, n) && Deep(states[i], u)
    ensures Deep(states[n], u)
  {
    if i < n {
      StepOfRun(states, movers, n - 1);
      DepthRun(states, movers, i, n - 1, u);
      DepthStep(states[n - 1], states[n], movers[n - 1], u);
    }
  }

  /**
    Of a run whose calls have all returned: every state is safe if and only if no release brought the count of a
    thread down to a positive multiple of 2^32.
  */
  lemma SafeForCallersExactly(states: seq<State>, movers: seq<Tid>)
    requires Run(states, movers) && Quiet(states[|movers|])
    ensures AllSafe(states) <==> NoDeepRelease(states, movers, |movers|)
  {
    SafeExactly(states, movers);
    if NoDeepRelease(states, movers, |movers|) {
      forall i | 0 <= i < |movers| ensures !ClearsHeld(states[i], movers[i]) {
        ShallowRun(states, movers, i);
      }
    } else {
      var i :| 0 <= i < |movers| && DeepRelease(states[i], movers[i]);
      assert Step(states[i], states[i + 1], movers[i]);
      assert Deep(states[i + 1], movers[i]);
      if ClearsNone(states, movers, |movers|) { DepthRun(states, movers, i + 1, |movers|, movers[i]); }
    }
  }

  /** A release by a thread that does not own the word changes nothing: it ends in the exception. */
  lemma ForeignRelease(s: State, s': State, t: Tid)
    requires Inv(s) && Step(s, s', t) && s.threads[t].pc == Belongs && s.threads[t].held == 0
    ensures s'.word == s.word && s'.threads[t] == Thread(Outside, 0)
    ensures s.word.low != t
  {
    assert if s.word.low == t then Owner(s.threads[t], s.word) else Stranger(s.threads[t]);
  }

  // --- calls without interference -------------------------------------------------------------------------

  /** The word after `operator+` by `t`, when no other thread moves, and whether it succeeds. */
  function TryResult(w: Word, t: Tid): (Word, bool) {
    if w.low == 0 then (Plus(Word(t, w.high)), true)
    else if w.low == t then (Plus(w), true)
    else (w, false)
  }

  function ReleaseResult(w: Word, t: Tid): (Word, bool) {
    if w.low != t then (w, false)
    else if Minus(w).high == 0 then (FREE, true)
    else (Minus(w), true)
  }

  ghost predicate Alone(states: seq<State>, t: Tid) {
    |states| > 0 && forall i :: 0 <= i < |states| - 1 ==> Step(states[i], states[i + 1], t)
  }

  /** An acquisition that nobody disturbs succeeds exactly on a free word or on one's own. */
  lemma TryAlone(s: State, t: Tid) returns (states: seq<State>)
    requires t in s.threads && s.threads[t].pc == Cas
    ensures Alone(states, t) && states[0] == s
    ensures var last, held := states[|states| - 1], s.threads[t].held;
      last == Put(s, t, TryResult(s.word, t).0, Outside, if TryResult(s.word, t).1 then held + 1 else held)
  {
    var w, held := s.word, s.threads[t].held;
    var w1 := if w.low == 0 then Word(t, w.high) else w;
    var s1 := Put(s, t, w1, Check, held);
    if w1.low != t {
      states := [s, s1, Put(s1, t, w1, Outside, held)];
    } else {
      var s2 := Put(s1, t, w1, Load, held);
      var s3 := Put(s2, t, w1, Store(w1), held);
      states := [s, s1, s2, s3, Put(s3, t, Plus(w1), Outside, held + 1)];
    }
  }

  lemma ReleaseAlone(s: State, t: Tid) returns (states: seq<State>)
    requires t in s.threads && s.threads[t].pc == Belongs && s.threads[t].held > 0
    ensures Alone(states, t) && states[0] == s
    ensures var last, held := states[|states| - 1], s.threads[t].held;
      last == Put(s, t, ReleaseResult(s.word, t).0, Outside, if ReleaseResult(s.word, t).1 then held - 1 else held)
  {
    var w, held := s.word, s.threads[t].held;
    if w.low != t {
      states := [s, Put(s, t, w, Outside, held)];
    } else {
      var s1 := Put(s, t, w, LoadBack, held);
      var s2 := Put(s1, t, w, StoreBack(w), held);
      var s3 := Put(s2, t, Minus(w), Test, held - 1);
      if Minus(w).high == 0 {
        var s4 := Put(s3, t, Minus(w), Clear, held - 1);
        states := [s, s1, s2, s3, s4, Put(s4, t, FREE, Outside, held - 1)];
      } else {
        states := [s, s1, s2, s3, Put(s3, t, Minus(w), Outside, held - 1)];
      }
    }
  }

  // --- a run that is not safe -----------------------------------------------------------------------------

  function Times(t: Tid, n: nat): seq<Tid> {
    seq(n, _ => t)
  }

  /** A run goes on with the steps of one thread. */
  lemma RunOn(states: seq<State>, movers: seq<Tid>, more: seq<State>, t: Tid)
    requires Run(states, movers) && Alone(more, t) && more[0] == states[|movers|]
    ensures Run(states + more[1..], movers + Times(t, |more| - 1))
    ensures (states + more[1..])[|states| + |more| - 2] == more[|more| - 1]
  {
    var n, all, who := |movers|, states + more[1..], movers + Times(t, |more| - 1);
    forall i | 0 <= i < |who| ensures Step(all[i], all[i + 1], who[i]) {
      if i < n {
        assert Step(states[i], states[i + 1], movers[i]);
      } else {
        assert Step(more[i - n], more[i - n + 1], t);
        assert all[i + 1] == more[i - n + 1] && all[i] == more[i - n];
      }
    }
  }

  /** A call from its start. */
  lemma Called(s: State, t: Tid, pc: PC, more: seq<State>)
    requires t in s.threads && s.threads[t].pc == Outside && (pc == Cas || pc == Belongs)
    requires Alone(more, t) && more[0] == Put(s, t, s.word, pc, s.threads[t].held)
    ensures Alone([s] + more, t)
  {
    var all := [s] + more;
    assert Step(s, more[0], t);
    forall i | 0 <= i < |all| - 1 ensures Step(all[i], all[i + 1], t) {
      if i > 0 { assert Step(more[i - 1], more[i], t); }
    }
  }

  lemma PutTwice(s: State, t: Tid, w: Word, pc: PC, held: nat, w': Word, held': nat)
    ensures Put(Put(s, t, w, pc, held), t, w', Outside, held') == Put(s, t, w', Outside, held')
  {
    assert s.threads[t := Thread(pc, held)][t := Thread(Outside, held')] == s.threads[t := Thread(Outside, held')];
  }

  /** From any run, a whole acquisition by one thread. */
  lemma ThenTry(states: seq<State>, movers: seq<Tid>, s: State, t: Tid, w: Word, held: nat)
    returns (states': seq<State>, movers': seq<Tid>)
    requires Run(states, movers) && s == states[|movers|] && t in s.threads && s.threads[t] == Thread(Outside, held)
    requires TryResult(s.word, t) == (w, true)
    ensures Run(states', movers') && states'[0] == states[0]
    ensures states'[|movers'|] == Put(s, t, w, Outside, held + 1)
  {
    var more := TryAlone(Put(s, t, s.word, Cas, held), t);
    Called(s, t, Cas, more);
    RunOn(states, movers, [s] + more, t);
    states', movers' := states + ([s] + more)[1..], movers + Times(t, |more|);
    PutTwice(s, t, s.word, Cas, held, w, held + 1);
  }

  lemma ThenRelease(states: seq<State>, movers: seq<Tid>, s: State, t: Tid, w: Word, held: nat)
    returns (states': seq<State>, movers': seq<Tid>)
    requires Run(states, movers) && s == states[|movers|] && t in s.threads && s.threads[t] == Thread(Outside, held)
    requires held > 0 && ReleaseResult(s.word, t) == (w, true)
    ensures Run(states', movers') && states'[0] == states[0]
    ensures states'[|movers'|] == Put(s, t, w, Outside, held - 1)
  {
    var more := ReleaseAlone(Put(s, t, s.word, Belongs, held), t);
    Called(s, t, Belongs, more);
    RunOn(states, movers, [s] + more, t);
    states', movers' := states + ([s] + more)[1..], movers + Times(t, |more|);
    PutTwice(s, t, s.word, Belongs, held, w, held - 1);
  }

  /** The word when one thread has nested its acquisitions `n` deep. */
  function Nested(t: Tid, n: nat): Word {
    if n == 0 then FREE else Word(t, n % TWO32)
  }

  lemma NestedTry(t: Tid, n: nat)
    requires n > 0
    ensures TryResult(Nested(t, n - 1), t) == (Nested(t, n), true)
  {
    DepthUp(n - 1);
  }

  /** Every nesting depth is reached. */
  lemma {:induction false} NestRun(s: State, t: Tid, n: nat) returns (states: seq<State>, movers: seq<Tid>)
    requires Initial(s) && t in s.threads
    ensures Run(states, movers) && states[0] == s
    ensures states[|movers|] == Put(s, t, Nested(t, n), Outside, n)
  {
    if n == 0 {
      states, movers := [s], [];
      assert s.threads[t := Thread(Outside, 0)] == s.threads;
    } else {
      states, movers := NestRun(s, t, n - 1);
      NestedTry(t, n);
      PutTwice(s, t, Nested(t, n - 1), Outside, n - 1, Nested(t, n), n);
      states, movers := ThenTry(states, movers, states[|movers|], t, Nested(t, n), n - 1);
    }
  }

  /**
    From every start with two threads: nested one deeper than 2^32, a release frees the word, and then both threads
    hold the lock.
  */
  lemma TooDeep(s: State, t: Tid, u: Tid) returns (states: seq<State>, movers: seq<Tid>)
    requires Initial(s) && t in s.threads && u in s.threads && t != u
    ensures Run(states, movers) && states[0] == s && Quiet(states[|movers|])
    ensures var last := states[|movers|];
      && last.word == Word(u, 1) && t in last.threads && u in last.threads
      && last.threads[t].held == TWO32 && last.threads[u].held == 1
  {
    states, movers := NestRun(s, t, TWO32 + 1);
    assert Nested(t, TWO32 + 1) == Word(t, 1);
    var deep := states[|movers|];
    states, movers := ThenRelease(states, movers, deep, t, FREE, TWO32 + 1);
    var freed := states[|movers|];
    assert freed.threads[u] == s.threads[u];
    states, movers := ThenTry(states, movers, freed, u, Word(u, 1), 0);
  }

  /** A release undoes an acquisition. */
  lemma ReleaseUndoesTry(w: Word, t: Tid)
    requires Proper(w) && (w.low == 0 ==> w == FREE) && (w.low == t ==> w.high > 0) && TryResult(w, t).1
    ensures ReleaseResult(TryResult(w, t).0, t) == (w, true)
  {
    HalvesMove(w);
  }

  /** The object as one thread sees it when no other moves. */
  class ReentrantLock {
    var exclusive: Word

    constructor ()
      ensures exclusive == FREE
    {
      exclusive := FREE;
    }

    method Try(current: Tid) returns (ok: bool)
      modifies this
      ensures (exclusive, ok) == TryResult(old(exclusive), current)
    {
      if exclusive.low == 0 {
        exclusive := Word(current, exclusive.high);
      }
      if exclusive.low != current {
        return false;
      }
      exclusive := Plus(exclusive);
      return true;
    }

    /** `ok == false` is the exception ERRNO_LOCK_BELONG. */
    method Release(current: Tid) returns (ok: bool)
      modifies this
      ensures (exclusive, ok) == ReleaseResult(old(exclusive), current)
    {
      if exclusive.low != current {
        return false;
      }
      exclusive := Minus(exclusive);
      if exclusive.high == 0 {
        exclusive := FREE;
      }
      return true;
    }
  }
}
