/**
The rate limiter of the provisioning service (`apn_provisioner/rate_limiter.py`) on its
states: de-duplication, circuit breaker, and the per-second and per-day caps.
*/
module RateSpec {
  datatype Config = Config(dedup: real, globalMax: real, maxSubDay: int, breakerPerMin: int, breakerResume: int)

  datatype Reason = InFlight | DuplicateRecent | CircuitOpen | RateGlobalSec | RateSubDay | Allowed

  datatype State = State(inflight: map<string, real>, lastSend: map<string, real>, subDay: map<string, seq<real>>,
                         globalMin: seq<real>, globalSec: seq<real>, open: bool)

  /** What is left of a queue of times when those more than `w` old are taken off its front. */
  function Prune(s: seq<real>, now: real, w: real): seq<real>
    decreases |s|
  {
    if s != [] && now - s[0] > w then Prune(s[1..], now, w) else s
  }

  function Get(m: map<string, seq<real>>, imsi: string): seq<real> {
    if imsi in m then m[imsi] else []
  }

  /** `check()`: the state it leaves and its answer. */
  function Check(c: Config, s: State, imsi: string, now: real): (State, Reason) {
    if imsi in s.inflight && now - s.inflight[imsi] < c.dedup then (s, InFlight)
    else if imsi in s.lastSend && now - s.lastSend[imsi] < c.dedup then (s, DuplicateRecent)
    else
      var s1 := s.(globalMin := Prune(s.globalMin, now, 60.0));
      var gmin := |s1.globalMin|;
      if s.open && gmin > c.breakerResume then (s1, CircuitOpen)
      else if !s.open && gmin >= c.breakerPerMin then (s1.(open := true), CircuitOpen)
      else
        var s2 := s1.(open := false, globalSec := Prune(s.globalSec, now, 1.0));
        if |s2.globalSec| as real >= c.globalMax then (s2, RateGlobalSec)
        else
          var dq := Prune(Get(s.subDay, imsi), now, 86400.0);
          var s3 := s2.(subDay := s.subDay[imsi := dq]);
          (s3, if |dq| >= c.maxSubDay then RateSubDay else Allowed)
  }

  function StartSend(s: State, imsi: string, now: real): State {
    s.(inflight := s.inflight[imsi := now])
  }

  function FinishSend(s: State, imsi: string, now: real, success: bool): State {
    var s := s.(inflight := s.inflight - {imsi});
    if success then
      s.(lastSend := s.lastSend[imsi := now], subDay := s.subDay[imsi := Get(s.subDay, imsi) + [now]],
         globalMin := s.globalMin + [now], globalSec := s.globalSec + [now])
    else s
  }

  function Fresh(): State {
    State(map[], map[], map[], [], [], false)
  }

  // ---- runs of the service --------------------------------------------------

  /** One pass of the service over a subscriber: checked at `now`, and if that allows it and
      the message is good and not a dry run (`send`), sent, which ends at `fin`. */
  datatype Attempt = Attempt(imsi: string, now: real, send: bool, fin: real, success: bool)

  datatype Sent = Sent(imsi: string, at: real)

  function Step(c: Config, s: State, a: Attempt): State {
    var (s1, r) := Check(c, s, a.imsi, a.now);
    if r == Allowed && a.send then FinishSend(StartSend(s1, a.imsi, a.now), a.imsi, a.fin, a.success) else s1
  }

  function Run(c: Config, as_: seq<Attempt>): State {
    if as_ == [] then Fresh() else Step(c, Run(c, as_[..|as_| - 1]), as_[|as_| - 1])
  }

  /** The successful sends of a run, in order. */
  function History(c: Config, as_: seq<Attempt>): seq<Sent> {
    if as_ == [] then [] else
    var init, a := as_[..|as_| - 1], as_[|as_| - 1];
    History(c, init)
    + if Check(c, Run(c, init), a.imsi, a.now).1 == Allowed && a.send && a.success then [Sent(a.imsi, a.fin)] else []
  }

  /** One attempt at a time, on a clock that does not run back. */
  ghost predicate Sequential(as_: seq<Attempt>) {
    && (forall i :: 0 <= i < |as_| ==> as_[i].now <= as_[i].fin)
    && (forall i, j :: 0 <= i < j < |as_| ==> as_[i].fin <= as_[j].now)
  }

  function Times(h: seq<Sent>): (ts: seq<real>)
    ensures |ts| == |h|
  {
    if h == [] then [] else Times(h[..|h| - 1]) + [h[|h| - 1].at]
  }

  function TimesOf(h: seq<Sent>, imsi: string): seq<real> {
    if h == [] then []
    else if h[|h| - 1].imsi == imsi then TimesOf(h[..|h| - 1], imsi) + [h[|h| - 1].at]
    else TimesOf(h[..|h| - 1], imsi)
  }

  // ---- the reference: decide from the whole history --------------------------

  /** How many of `ts` lie at most `w` before `now`. */
  function Recent(ts: seq<real>, now: real, w: real): nat {
    if ts == [] then 0 else Recent(ts[..|ts| - 1], now, w) + if now - ts[|ts| - 1] <= w then 1 else 0
  }

  function Last(ts: seq<real>): real
    requires ts != []
  {
    ts[|ts| - 1]
  }

  function Decide(c: Config, h: seq<Sent>, open: bool, imsi: string, now: real): Reason {
    var own := TimesOf(h, imsi);
    if own != [] && now - Last(own) < c.dedup then DuplicateRecent
    else if open && Recent(Times(h), now, 60.0) > c.breakerResume then CircuitOpen
    else if !open && Recent(Times(h), now, 60.0) >= c.breakerPerMin then CircuitOpen
    else if Recent(Times(h), now, 1.0) as real >= c.globalMax then RateGlobalSec
    else if Recent(own, now, 86400.0) >= c.maxSubDay then RateSubDay
    else Allowed
  }

  /** Whether the breaker is open after an attempt: a duplicate does not touch it, an open one
      closes when the last minute's sends are down to the resume count, and a closed one opens
      when they reach the limit. */
  function Breaker(c: Config, h: seq<Sent>, open: bool, imsi: string, now: real): bool {
    if Decide(c, h, open, imsi, now) == DuplicateRecent then open
    else if open then Recent(Times(h), now, 60.0) > c.breakerResume
    else Recent(Times(h), now, 60.0) >= c.breakerPerMin
  }

  /** A limiter that keeps every send, and nothing else but its breaker. */
  datatype Ref = Ref(sent: seq<Sent>, open: bool)

  function RefStep(c: Config, r: Ref, a: Attempt): Ref {
    var sent := Decide(c, r.sent, r.open, a.imsi, a.now) == Allowed && a.send && a.success;
    Ref(r.sent + if sent then [Sent(a.imsi, a.fin)] else [], Breaker(c, r.sent, r.open, a.imsi, a.now))
  }

  function RefRun(c: Config, as_: seq<Attempt>): Ref {
    if as_ == [] then Ref([], false) else RefStep(c, RefRun(c, as_[..|as_| - 1]), as_[|as_| - 1])
  }

  // ---- queues against histories ---------------------------------------------

  ghost predicate Sorted(ts: seq<real>) {
    forall i, j :: 0 <= i < j < |ts| ==> ts[i] <= ts[j]
  }

  /** The queue is the history without a part that at `clock` is more than `w` old. */
  ghost predicate Tracks(dq: seq<real>, ts: seq<real>, clock: real, w: real) {
    && |dq| <= |ts| && dq == ts[|ts| - |dq|..]
    && forall i :: 0 <= i < |ts| - |dq| ==> clock - ts[i] > w
  }

  lemma {:induction false} PruneTracks(dq: seq<real>, ts: seq<real>, clock: real, now: real, w: real)
    requires Tracks(dq, ts, clock, w) && clock <= now && Sorted(ts)
    ensures Tracks(Prune(dq, now, w), ts, now, w) && |Prune(dq, now, w)| == Recent(ts, now, w)
    decreases |dq|
  {
    if dq != [] && now - dq[0] > w {
      var k := |ts| - |dq|;
      assert dq[0] == ts[k] && dq[1..] == ts[k + 1..];
      forall i | 0 <= i < k + 1
        ensures now - ts[i] > w
      {
      }
      PruneTracks(dq[1..], ts, now, now, w);
    } else {
      RecentSuffix(ts, |ts| - |dq|, now, w);
    }
  }

  /** When the times before index `k` are old and the others recent, the others are counted. */
  lemma {:induction false} RecentSuffix(ts: seq<real>, k: nat, now: real, w: real)
    requires k <= |ts| && Sorted(ts) && (forall i :: 0 <= i < k ==> now - ts[i] > w)
    requires k < |ts| ==> now - ts[k] <= w
    ensures Recent(ts, now, w) == |ts| - k
  {
    if ts != [] {
      var init := ts[..|ts| - 1];
      if k < |ts| {
        assert ts[k] <= Last(ts);
        if k < |init| {
          assert init[k] == ts[k];
        }
        RecentSuffix(init, k, now, w);
      } else {
        RecentSuffix(init, k - 1, now, w);
      }
    }
  }

  ghost predicate Upto(ts: seq<real>, clock: real) {
    Sorted(ts) && forall i :: 0 <= i < |ts| ==> ts[i] <= clock
  }

  /** What the state keeps of the history of one subscriber. */
  ghost predicate SubOk(s: State, h: seq<Sent>, clock: real, imsi: string) {
    var own := TimesOf(h, imsi);
    && Upto(own, clock) && Tracks(Get(s.subDay, imsi), own, clock, 86400.0)
    && (imsi in s.lastSend <==> own != []) && (own != [] ==> s.lastSend[imsi] == Last(own))
  }

  /** The state at `clock` is a true extract of the history `h`. */
  ghost predicate Inv(s: State, h: seq<Sent>, clock: real) {
    && s.inflight == map[] && Upto(Times(h), clock)
    && Tracks(s.globalMin, Times(h), clock, 60.0) && Tracks(s.globalSec, Times(h), clock, 1.0)
    && forall imsi {:trigger SubOk(s, h, clock, imsi)} :: SubOk(s, h, clock, imsi)
  }

  /** Taking old times off the queues loses nothing. */
  lemma {:induction false} Pruned(s: State, s': State, h: seq<Sent>, now: real, imsi: string)
    requires Inv(s, h, now) && s'.inflight == s.inflight && s'.lastSend == s.lastSend
    requires s'.globalMin == s.globalMin || s'.globalMin == Prune(s.globalMin, now, 60.0)
    requires s'.globalSec == s.globalSec || s'.globalSec == Prune(s.globalSec, now, 1.0)
    requires s'.subDay == s.subDay || s'.subDay == s.subDay[imsi := Prune(Get(s.subDay, imsi), now, 86400.0)]
    ensures Inv(s', h, now)
  {
    PruneTracks(s.globalMin, Times(h), now, now, 60.0);
    PruneTracks(s.globalSec, Times(h), now, now, 1.0);
    forall i
      ensures SubOk(s', h, now, i)
    {
      assert SubOk(s, h, now, i);
      SubPruned(s, s', h, now, imsi, i);
    }
  }

  lemma {:induction false} SubPruned(s: State, s': State, h: seq<Sent>, now: real, imsi: string, i: string)
    requires SubOk(s, h, now, i) && s'.lastSend == s.lastSend
    requires s'.subDay == s.subDay || s'.subDay == s.subDay[imsi := Prune(Get(s.subDay, imsi), now, 86400.0)]
    ensures SubOk(s', h, now, i)
  {
    PruneTracks(Get(s.subDay, i), TimesOf(h, i), now, now, 86400.0);
    assert Get(s'.subDay, i) == Get(s.subDay, i) || Get(s'.subDay, i) == Prune(Get(s.subDay, i), now, 86400.0);
  }

  lemma {:induction false} CheckPrunes(c: Config, s: State, imsi: string, now: real)
    ensures var s' := Check(c, s, imsi, now).0;
            && s'.inflight == s.inflight && s'.lastSend == s.lastSend
            && (s'.globalMin == s.globalMin || s'.globalMin == Prune(s.globalMin, now, 60.0))
            && (s'.globalSec == s.globalSec || s'.globalSec == Prune(s.globalSec, now, 1.0))
            && (s'.subDay == s.subDay || s'.subDay == s.subDay[imsi := Prune(Get(s.subDay, imsi), now, 86400.0)])
  {
  }

  lemma {:induction false} SameDecision(c: Config, s: State, h: seq<Sent>, now: real, imsi: string)
    requires s.inflight == map[] && (imsi in s.lastSend <==> TimesOf(h, imsi) != [])
    requires imsi in s.lastSend ==> s.lastSend[imsi] == Last(TimesOf(h, imsi))
    requires |Prune(s.globalMin, now, 60.0)| == Recent(Times(h), now, 60.0)
    requires |Prune(s.globalSec, now, 1.0)| == Recent(Times(h), now, 1.0)
    requires |Prune(Get(s.subDay, imsi), now, 86400.0)| == Recent(TimesOf(h, imsi), now, 86400.0)
    ensures Check(c, s, imsi, now).1 == Decide(c, h, s.open, imsi, now)
    ensures Check(c, s, imsi, now).0.open == Breaker(c, h, s.open, imsi, now)
  {
  }

  /** In a state that is a true extract, the limiter decides as one that keeps everything. */
  lemma {:induction false} DecidesRight(c: Config, s: State, h: seq<Sent>, now: real, imsi: string)
    requires Inv(s, h, now)
    ensures Check(c, s, imsi, now).1 == Decide(c, h, s.open, imsi, now)
    ensures Check(c, s, imsi, now).0.open == Breaker(c, h, s.open, imsi, now)
    ensures Inv(Check(c, s, imsi, now).0, h, now)
  {
    PruneTracks(s.globalMin, Times(h), now, now, 60.0);
    PruneTracks(s.globalSec, Times(h), now, now, 1.0);
    assert SubOk(s, h, now, imsi);
    PruneTracks(Get(s.subDay, imsi), TimesOf(h, imsi), now, now, 86400.0);
    SameDecision(c, s, h, now, imsi);
    CheckPrunes(c, s, imsi, now);
    Pruned(s, Check(c, s, imsi, now).0, h, now, imsi);
  }

  lemma {:induction false} SentKeeps(s: State, h: seq<Sent>, clock: real, imsi: string, start: real, fin: real)
    requires Inv(s, h, clock) && clock <= fin
    ensures Inv(FinishSend(StartSend(s, imsi, start), imsi, fin, true), h + [Sent(imsi, fin)], fin)
  {
    var s', h' := FinishSend(StartSend(s, imsi, start), imsi, fin, true), h + [Sent(imsi, fin)];
    GlobalSent(s, h, clock, imsi, start, fin);
    forall i
      ensures SubOk(s', h', fin, i)
    {
      assert SubOk(s, h, clock, i);
      SubSent(s, h, clock, imsi, start, fin, i);
    }
  }

  lemma {:induction false} GlobalSent(s: State, h: seq<Sent>, clock: real, imsi: string, start: real, fin: real)
    requires s.inflight == map[] && Upto(Times(h), clock) && clock <= fin
    requires Tracks(s.globalMin, Times(h), clock, 60.0) && Tracks(s.globalSec, Times(h), clock, 1.0)
    ensures var s', ts := FinishSend(StartSend(s, imsi, start), imsi, fin, true), Times(h + [Sent(imsi, fin)]);
            s'.inflight == map[] && Upto(ts, fin) && Tracks(s'.globalMin, ts, fin, 60.0) && Tracks(s'.globalSec, ts, fin, 1.0)
  {
    TimesSent(h, imsi, fin);
    Appended(s.globalMin, Times(h), clock, 60.0, fin);
    Appended(s.globalSec, Times(h), clock, 1.0, fin);
    assert map[imsi := start] - {imsi} == map[];
  }

  lemma TimesSent(h: seq<Sent>, imsi: string, fin: real)
    ensures Times(h + [Sent(imsi, fin)]) == Times(h) + [fin]
  {
    assert (h + [Sent(imsi, fin)])[..|h|] == h;
  }

  lemma {:induction false} SubSent(s: State, h: seq<Sent>, clock: real, imsi: string, start: real, fin: real, i: string)
    requires SubOk(s, h, clock, i) && clock <= fin
    ensures SubOk(FinishSend(StartSend(s, imsi, start), imsi, fin, true), h + [Sent(imsi, fin)], fin, i)
  {
    var s', h', own := FinishSend(StartSend(s, imsi, start), imsi, fin, true), h + [Sent(imsi, fin)], TimesOf(h, i);
    TimesOfSent(h, imsi, fin, i);
    Appended(Get(s.subDay, i), own, clock, 86400.0, fin);
    assert Get(s'.subDay, i) == if i == imsi then Get(s.subDay, i) + [fin] else Get(s.subDay, i);
  }

  lemma TimesOfSent(h: seq<Sent>, imsi: string, fin: real, i: string)
    ensures TimesOf(h + [Sent(imsi, fin)], i) == if i == imsi then TimesOf(h, i) + [fin] else TimesOf(h, i)
  {
    assert (h + [Sent(imsi, fin)])[..|h|] == h;
  }

  lemma {:induction false} Appended(dq: seq<real>, ts: seq<real>, clock: real, w: real, fin: real)
    requires Tracks(dq, ts, clock, w) && Upto(ts, clock) && clock <= fin
    ensures Tracks(dq, ts, fin, w) && Upto(ts, fin)
    ensures Tracks(dq + [fin], ts + [fin], fin, w) && Upto(ts + [fin], fin)
  {
    assert (ts + [fin])[|ts| - |dq|..] == dq + [fin];
  }

  lemma {:induction false} FailedKeeps(s: State, h: seq<Sent>, clock: real, imsi: string, start: real, fin: real)
    requires Inv(s, h, clock) && clock <= fin
    ensures Inv(FinishSend(StartSend(s, imsi, start), imsi, fin, false), h, fin)
  {
    var s' := FinishSend(StartSend(s, imsi, start), imsi, fin, false);
    assert s'.inflight == map[];
    ClockMoves(s, h, clock, fin);
    forall i
      ensures SubOk(s', h, fin, i)
    {
      assert SubOk(s, h, fin, i);
    }
  }

  lemma {:induction false} ClockMoves(s: State, h: seq<Sent>, clock: real, later: real)
    requires Inv(s, h, clock) && clock <= later
    ensures Inv(s, h, later)
  {
    forall i
      ensures SubOk(s, h, later, i)
    {
      assert SubOk(s, h, clock, i);
    }
  }

  lemma {:induction false} StepInv(c: Config, s: State, h: seq<Sent>, a: Attempt)
    requires Inv(s, h, a.now) && a.now <= a.fin
    ensures var sent := Check(c, s, a.imsi, a.now).1 == Allowed && a.send && a.success;
            Inv(Step(c, s, a), h + if sent then [Sent(a.imsi, a.fin)] else [], a.fin)
  {
    var (s1, r) := Check(c, s, a.imsi, a.now);
    DecidesRight(c, s, h, a.now, a.imsi);
    assert h + [] == h;
    if r != Allowed || !a.send {
      ClockMoves(s1, h, a.now, a.fin);
    } else if a.success {
      SentKeeps(s1, h, a.now, a.imsi, a.now, a.fin);
    } else {
      FailedKeeps(s1, h, a.now, a.imsi, a.now, a.fin);
    }
  }

  /** In every sequential run the limiter's state is a true extract of the history, then and
      until the next attempt. */
  lemma {:induction false} RunInv(c: Config, as_: seq<Attempt>, later: real)
    requires Sequential(as_) && (as_ != [] ==> as_[|as_| - 1].fin <= later)
    ensures Inv(Run(c, as_), History(c, as_), later)
  {
    if as_ == [] {
      EmptyInv(later);
    } else {
      var n := |as_| - 1;
      assert n > 0 ==> as_[n - 1].fin <= as_[n].now;
      RunInv(c, as_[..n], as_[n].now);
      StepInv(c, Run(c, as_[..n]), History(c, as_[..n]), as_[n]);
      ClockMoves(Run(c, as_), History(c, as_), as_[n].fin, later);
    }
  }

  lemma EmptyInv(clock: real)
    ensures Inv(Fresh(), [], clock)
  {
    forall i
      ensures SubOk(Fresh(), [], clock, i)
    {
    }
  }

  /** In every sequential run the sends, and the breaker, are those of the limiter that keeps
      every send. */
  lemma {:induction false} RunRefines(c: Config, as_: seq<Attempt>)
    requires Sequential(as_)
    ensures RefRun(c, as_) == Ref(History(c, as_), Run(c, as_).open)
  {
    if as_ == [] {
    } else {
      var n := |as_| - 1;
      FirstSequential(as_);
      RunRefines(c, as_[..n]);
      RunInv(c, as_[..n], as_[n].now);
      StepRefines(c, Run(c, as_[..n]), History(c, as_[..n]), as_[n]);
    }
  }

  lemma {:induction false} StepRefines(c: Config, s: State, h: seq<Sent>, a: Attempt)
    requires Inv(s, h, a.now)
    ensures var sent := Check(c, s, a.imsi, a.now).1 == Allowed && a.send && a.success;
            RefStep(c, Ref(h, s.open), a) == Ref(h + if sent then [Sent(a.imsi, a.fin)] else [], Step(c, s, a).open)
  {
    DecidesRight(c, s, h, a.now, a.imsi);
    SendKeepsBreaker(c, s, a);
  }

  lemma SendKeepsBreaker(c: Config, s: State, a: Attempt)
    ensures Step(c, s, a).open == Check(c, s, a.imsi, a.now).0.open
  {
  }

  /** At every point of every sequential run, the answer is that of the limiter that keeps every
      send. */
  lemma {:induction false} RunDecides(c: Config, as_: seq<Attempt>, imsi: string, now: real)
    requires Sequential(as_) && (as_ != [] ==> as_[|as_| - 1].fin <= now)
    ensures Check(c, Run(c, as_), imsi, now).1 == Decide(c, RefRun(c, as_).sent, RefRun(c, as_).open, imsi, now)
  {
    RunInv(c, as_, now);
    DecidesRight(c, Run(c, as_), History(c, as_), now, imsi);
    RunRefines(c, as_);
  }

  /** What each layer objects to. */
  ghost predicate Duplicate(c: Config, h: seq<Sent>, imsi: string, now: real) {
    TimesOf(h, imsi) != [] && now - Last(TimesOf(h, imsi)) < c.dedup
  }

  ghost predicate Broken(c: Config, h: seq<Sent>, open: bool, now: real) {
    if open then Recent(Times(h), now, 60.0) > c.breakerResume else Recent(Times(h), now, 60.0) >= c.breakerPerMin
  }

  ghost predicate TooFast(c: Config, h: seq<Sent>, now: real) {
    Recent(Times(h), now, 1.0) as real >= c.globalMax
  }

  ghost predicate TooMany(c: Config, h: seq<Sent>, imsi: string, now: real) {
    Recent(TimesOf(h, imsi), now, 86400.0) >= c.maxSubDay
  }

  /** At every point of every sequential run the layers are asked in this order, duplicates, breaker,
      second, day, the first that objects answers, and the send is allowed exactly when none does. */
  lemma {:induction false} FirstObjection(c: Config, as_: seq<Attempt>, imsi: string, now: real)
    requires Sequential(as_) && (as_ != [] ==> as_[|as_| - 1].fin <= now)
    ensures var h, open := History(c, as_), Run(c, as_).open;
            FirstOf(Check(c, Run(c, as_), imsi, now).1, Duplicate(c, h, imsi, now), Broken(c, h, open, now), TooFast(c, h, now),
                    TooMany(c, h, imsi, now))
  {
    RunInv(c, as_, now);
    DecidesRight(c, Run(c, as_), History(c, as_), now, imsi);
    DecideFirst(c, History(c, as_), Run(c, as_).open, imsi, now);
  }

  lemma DecideFirst(c: Config, h: seq<Sent>, open: bool, imsi: string, now: real)
    ensures FirstOf(Decide(c, h, open, imsi, now), Duplicate(c, h, imsi, now), Broken(c, h, open, now), TooFast(c, h, now),
                    TooMany(c, h, imsi, now))
  {
  }

  /** `r` is the answer of the first layer that objects. */
  ghost predicate FirstOf(r: Reason, dup: bool, broken: bool, fast: bool, many: bool) {
    && (r == DuplicateRecent <==> dup)
    && (r == CircuitOpen <==> !dup && broken)
    && (r == RateGlobalSec <==> !dup && !broken && fast)
    && (r == RateSubDay <==> !dup && !broken && !fast && many)
    && (r == Allowed <==> !dup && !broken && !fast && !many)
  }

  /** The answers the attempts of a run got. */
  function Answers(c: Config, as_: seq<Attempt>): seq<Reason> {
    if as_ == [] then [] else
    var init, a := as_[..|as_| - 1], as_[|as_| - 1];
    Answers(c, init) + [Check(c, Run(c, init), a.imsi, a.now).1]
  }

  lemma CheckOpens(c: Config, s: State, imsi: string, now: real)
    ensures var (s', r) := Check(c, s, imsi, now);
            s'.open == if r == InFlight || r == DuplicateRecent then s.open else r == CircuitOpen
  {
  }

  predicate Duplicated(r: Reason) {
    r == InFlight || r == DuplicateRecent
  }

  /** Answer `i` is the last that was not about a duplicate. */
  ghost predicate LastAsked(rs: seq<Reason>, i: int) {
    0 <= i < |rs| && !Duplicated(rs[i]) && forall j :: i < j < |rs| ==> Duplicated(rs[j])
  }

  ghost predicate LastRefused(rs: seq<Reason>) {
    exists i :: LastAsked(rs, i) && rs[i] == CircuitOpen
  }

  lemma {:induction false} LastMore(rs: seq<Reason>, r: Reason)
    ensures LastRefused(rs + [r]) <==> if Duplicated(r) then LastRefused(rs) else r == CircuitOpen
  {
    var rs' := rs + [r];
    if Duplicated(r) {
      forall i
        ensures LastAsked(rs', i) <==> LastAsked(rs, i)
      {
        assert forall j :: 0 <= j < |rs| ==> rs'[j] == rs[j];
      }
    } else {
      assert LastAsked(rs', |rs|);
      assert forall i :: LastAsked(rs', i) ==> i == |rs|;
    }
  }

  /** The breaker is open after a run exactly when the last attempt that was not a duplicate was
      refused by it. */
  lemma {:induction false} BreakerOpen(c: Config, as_: seq<Attempt>)
    ensures Run(c, as_).open <==> LastRefused(Answers(c, as_))
  {
    if as_ == [] {
    } else {
      var init, a := as_[..|as_| - 1], as_[|as_| - 1];
      BreakerOpen(c, init);
      CheckOpens(c, Run(c, init), a.imsi, a.now);
      SendKeepsBreaker(c, Run(c, init), a);
      LastMore(Answers(c, init), Check(c, Run(c, init), a.imsi, a.now).1);
    }
  }

  // ---- every interleaving ------------------------------------------------------

  /** The calls on the limiter, in any order, by any number of senders. */
  datatype Event = Checked(imsi: string, now: real) | Began(imsi: string, now: real) | Ended(imsi: string, now: real, success: bool)

  function Handled(c: Config, s: State, e: Event): State {
    match e
    case Checked(imsi, now) => Check(c, s, imsi, now).0
    case Began(imsi, now) => StartSend(s, imsi, now)
    case Ended(imsi, now, success) => FinishSend(s, imsi, now, success)
  }

  function HandledAll(c: Config, es: seq<Event>): State {
    if es == [] then Fresh() else Handled(c, HandledAll(c, es[..|es| - 1]), es[|es| - 1])
  }

  /** Event `i` is the last start of a send to `imsi`, and it has not ended. */
  ghost predicate Underway(es: seq<Event>, imsi: string, i: int) {
    && 0 <= i < |es| && es[i].Began? && es[i].imsi == imsi
    && forall j :: i < j < |es| && !es[j].Checked? ==> es[j].imsi != imsi
  }

  /** Event `i` is the last send to `imsi` that succeeded. */
  ghost predicate LatestSent(es: seq<Event>, imsi: string, i: int) {
    && 0 <= i < |es| && es[i].Ended? && es[i].success && es[i].imsi == imsi
    && forall j :: i < j < |es| && es[j].Ended? && es[j].success ==> es[j].imsi != imsi
  }

  lemma {:induction false} InFlightTracked(c: Config, es: seq<Event>, imsi: string) returns (i: int)
    ensures imsi in HandledAll(c, es).inflight <==> Underway(es, imsi, i)
    ensures Underway(es, imsi, i) ==> HandledAll(c, es).inflight[imsi] == es[i].now
    ensures forall j :: Underway(es, imsi, j) ==> Underway(es, imsi, i) && j == i
  {
    if es == [] {
      i := -1;
    } else {
      var n := |es| - 1;
      var e, s := es[n], HandledAll(c, es[..n]);
      i := InFlightTracked(c, es[..n], imsi);
      if e.Checked? {
        CheckPrunes(c, s, e.imsi, e.now);
      }
      if e.Checked? || e.imsi != imsi {
        UnderwayStays(es, imsi);
      } else {
        i := n;
      }
    }
  }

  lemma {:induction false} UnderwayStays(es: seq<Event>, imsi: string)
    requires es != [] && (es[|es| - 1].Checked? || es[|es| - 1].imsi != imsi)
    ensures forall i :: Underway(es, imsi, i) <==> Underway(es[..|es| - 1], imsi, i)
  {
    var init := es[..|es| - 1];
    forall i
      ensures Underway(es, imsi, i) <==> Underway(init, imsi, i)
    {
      assert forall j :: 0 <= j < |init| ==> init[j] == es[j];
    }
  }

  lemma {:induction false} LastSendTracked(c: Config, es: seq<Event>, imsi: string) returns (i: int)
    ensures imsi in HandledAll(c, es).lastSend <==> LatestSent(es, imsi, i)
    ensures LatestSent(es, imsi, i) ==> HandledAll(c, es).lastSend[imsi] == es[i].now
    ensures forall j :: LatestSent(es, imsi, j) ==> LatestSent(es, imsi, i) && j == i
  {
    if es == [] {
      i := -1;
    } else {
      var n := |es| - 1;
      var e, s := es[n], HandledAll(c, es[..n]);
      i := LastSendTracked(c, es[..n], imsi);
      if e.Checked? {
        CheckPrunes(c, s, e.imsi, e.now);
      }
      if e.Ended? && e.success && e.imsi == imsi {
        i := n;
      } else {
        LatestStays(es, imsi);
      }
    }
  }

  lemma {:induction false} LatestStays(es: seq<Event>, imsi: string)
    requires es != [] && !(es[|es| - 1].Ended? && es[|es| - 1].success && es[|es| - 1].imsi == imsi)
    ensures forall i :: LatestSent(es, imsi, i) <==> LatestSent(es[..|es| - 1], imsi, i)
  {
    var init := es[..|es| - 1];
    forall i
      ensures LatestSent(es, imsi, i) <==> LatestSent(init, imsi, i)
    {
      assert forall j :: 0 <= j < |init| ==> init[j] == es[j];
    }
  }

  /** A send to `imsi` that began within the de-duplication window has not ended. */
  ghost predicate Flying(c: Config, es: seq<Event>, imsi: string, now: real) {
    exists i :: Underway(es, imsi, i) && now - es[i].now < c.dedup
  }

  /** The last send to `imsi` that succeeded ended within the window. */
  ghost predicate JustSent(c: Config, es: seq<Event>, imsi: string, now: real) {
    exists i :: LatestSent(es, imsi, i) && now - es[i].now < c.dedup
  }

  /** Whatever the order of the calls: a check answers "in flight" exactly while a send to that
      subscriber that began within the de-duplication window has not ended, and "duplicate" exactly
      when there is none and the last one that succeeded ended within the window; so it is never
      allowed in either case. */
  lemma {:induction false} NeverTwice(c: Config, es: seq<Event>, imsi: string, now: real)
    ensures Check(c, HandledAll(c, es), imsi, now).1 == InFlight <==> Flying(c, es, imsi, now)
    ensures Check(c, HandledAll(c, es), imsi, now).1 == DuplicateRecent <==> !Flying(c, es, imsi, now) && JustSent(c, es, imsi, now)
  {
    var i := InFlightTracked(c, es, imsi);
    var j := LastSendTracked(c, es, imsi);
    CheckDedup(c, HandledAll(c, es), imsi, now);
  }

  lemma CheckDedup(c: Config, s: State, imsi: string, now: real)
    ensures var r := Check(c, s, imsi, now).1;
            && (r == InFlight <==> imsi in s.inflight && now - s.inflight[imsi] < c.dedup)
            && (r == DuplicateRecent <==> r != InFlight && imsi in s.lastSend && now - s.lastSend[imsi] < c.dedup)
  {
  }

  // ---- what the windows hold ------------------------------------------------

  /** Any `b + 1` of the times in a row span more than `w`. */
  ghost predicate Spaced(ts: seq<real>, b: nat, w: real) {
    forall i, j :: 0 <= i < |ts| && j == i + b && j < |ts| ==> ts[j] - ts[i] > w
  }

  /** How many of the times lie in the closed window of length `w` that begins at `a`. */
  function InWindow(ts: seq<real>, a: real, w: real): nat {
    if ts == [] then 0 else InWindow(ts[..|ts| - 1], a, w) + if a <= Last(ts) <= a + w then 1 else 0
  }

  lemma {:induction false} RecentFrom(ts: seq<real>, i: nat, now: real, w: real)
    requires Sorted(ts) && i < |ts| && now - ts[i] <= w
    ensures Recent(ts, now, w) >= |ts| - i
  {
    assert ts[i] <= Last(ts);
    if i < |ts| - 1 {
      RecentFrom(ts[..|ts| - 1], i, now, w);
    }
  }

  lemma {:induction false} SpacedStep(ts: seq<real>, now: real, fin: real, b: nat, w: real)
    requires Spaced(ts, b, w) && Sorted(ts) && now <= fin && Recent(ts, now, w) < b
    ensures Spaced(ts + [fin], b, w)
  {
    var i := |ts| - b;
    if 0 <= i && now - ts[i] <= w {
      RecentFrom(ts, i, now, w);
    }
  }

  lemma {:induction false} WindowAfter(ts: seq<real>, k: nat, a: real, w: real)
    requires k <= |ts| && forall i :: 0 <= i < k ==> ts[i] < a
    ensures InWindow(ts, a, w) <= |ts| - k
  {
    if ts != [] {
      WindowAfter(ts[..|ts| - 1], if k < |ts| then k else k - 1, a, w);
    }
  }

  lemma {:induction false} SpacedWindow(ts: seq<real>, b: nat, a: real, w: real)
    requires Sorted(ts) && Spaced(ts, b, w) && w >= 0.0
    ensures InWindow(ts, a, w) <= b
  {
    if ts != [] {
      var n := |ts| - 1;
      var init := ts[..n];
      SpacedWindow(init, b, a, w);
      if a <= ts[n] <= a + w {
        if b <= n {
          assert ts[n] - ts[n - b] > w;
          forall i | 0 <= i < n - b + 1
            ensures ts[i] < a
          {
            assert i < n - b ==> ts[i] <= ts[n - b];
          }
          WindowAfter(ts, n - b + 1, a, w);
        } else {
          WindowAfter(ts, 0, a, w);
        }
      }
    }
  }

  function Max0(x: int): nat {
    if x > 0 then x else 0
  }

  function Ceil(x: real): int {
    -((-x).Floor)
  }

  function PerMinute(c: Config): nat {
    Max0(if c.breakerPerMin > c.breakerResume + 1 then c.breakerPerMin else c.breakerResume + 1)
  }

  ghost predicate Apart(ts: seq<real>, d: real) {
    forall i, j :: 0 <= i < j < |ts| ==> ts[j] - ts[i] >= d
  }

  /** The bounds on a history, of all sends and of one subscriber. */
  ghost predicate Bounded(c: Config, h: seq<Sent>, imsi: string) {
    && Spaced(Times(h), PerMinute(c), 60.0) && Spaced(Times(h), Max0(Ceil(c.globalMax)), 1.0)
    && Spaced(TimesOf(h, imsi), Max0(c.maxSubDay), 86400.0) && Apart(TimesOf(h, imsi), c.dedup)
  }

  lemma {:induction false} AllowedBounded(c: Config, h: seq<Sent>, open: bool, a: Attempt, imsi: string)
    requires Bounded(c, h, imsi) && Upto(Times(h), a.now) && Upto(TimesOf(h, imsi), a.now) && a.now <= a.fin
    requires Decide(c, h, open, a.imsi, a.now) == Allowed
    ensures Bounded(c, h + [Sent(a.imsi, a.fin)], imsi)
  {
    TimesSent(h, a.imsi, a.fin);
    TimesOfSent(h, a.imsi, a.fin, imsi);
    SpacedStep(Times(h), a.now, a.fin, PerMinute(c), 60.0);
    SpacedStep(Times(h), a.now, a.fin, Max0(Ceil(c.globalMax)), 1.0);
    if a.imsi == imsi {
      OwnBounded(c, TimesOf(h, imsi), a.now, a.fin);
    }
  }

  lemma {:induction false} OwnBounded(c: Config, own: seq<real>, now: real, fin: real)
    requires Spaced(own, Max0(c.maxSubDay), 86400.0) && Apart(own, c.dedup) && Upto(own, now) && now <= fin
    requires (own != [] ==> now - Last(own) >= c.dedup) && Recent(own, now, 86400.0) < c.maxSubDay
    ensures Spaced(own + [fin], Max0(c.maxSubDay), 86400.0) && Apart(own + [fin], c.dedup)
  {
    SpacedStep(own, now, fin, Max0(c.maxSubDay), 86400.0);
    forall i | 0 <= i < |own|
      ensures fin - own[i] >= c.dedup
    {
      assert own[i] <= Last(own);
    }
  }

  lemma {:induction false} StepBounded(c: Config, s: State, h: seq<Sent>, a: Attempt, imsi: string)
    requires Inv(s, h, a.now) && Bounded(c, h, imsi) && a.now <= a.fin
    ensures var sent := Check(c, s, a.imsi, a.now).1 == Allowed && a.send && a.success;
            Bounded(c, h + if sent then [Sent(a.imsi, a.fin)] else [], imsi)
  {
    if Check(c, s, a.imsi, a.now).1 == Allowed && a.send && a.success {
      DecidesRight(c, s, h, a.now, a.imsi);
      assert SubOk(s, h, a.now, imsi);
      AllowedBounded(c, h, s.open, a, imsi);
    } else {
      assert h + [] == h;
    }
  }

  lemma {:induction false} RunBounded(c: Config, as_: seq<Attempt>, imsi: string)
    requires Sequential(as_)
    ensures Bounded(c, History(c, as_), imsi)
  {
    if as_ != [] {
      var n := |as_| - 1;
      FirstSequential(as_);
      RunBounded(c, as_[..n], imsi);
      RunInv(c, as_[..n], as_[n].now);
      StepBounded(c, Run(c, as_[..n]), History(c, as_[..n]), as_[n], imsi);
    } else {
      NothingBounded(c, imsi);
    }
  }

  lemma NothingBounded(c: Config, imsi: string)
    ensures Bounded(c, [], imsi)
  {
  }

  lemma FirstSequential(as_: seq<Attempt>)
    requires Sequential(as_) && as_ != []
    ensures var n := |as_| - 1;
            Sequential(as_[..n]) && as_[n].now <= as_[n].fin && (n > 0 ==> as_[..n][n - 1].fin <= as_[n].now)
  {
  }

  /** An attach storm never becomes an SMS storm: over every sequential run, however many
      attempts it holds, every window holds no more sends than configured, and two sends to
      one subscriber are at least the de-duplication window apart. */
  lemma {:induction false} WindowsBounded(c: Config, as_: seq<Attempt>, imsi: string, a: real)
    requires Sequential(as_)
    ensures InWindow(Times(History(c, as_)), a, 60.0) <= PerMinute(c)
    ensures InWindow(Times(History(c, as_)), a, 1.0) <= Max0(Ceil(c.globalMax))
    ensures InWindow(TimesOf(History(c, as_), imsi), a, 86400.0) <= Max0(c.maxSubDay)
    ensures Apart(TimesOf(History(c, as_), imsi), c.dedup)
  {
    var h := History(c, as_);
    var later := if as_ == [] then 0.0 else as_[|as_| - 1].fin;
    RunInv(c, as_, later);
    RunBounded(c, as_, imsi);
    assert SubOk(Run(c, as_), h, later, imsi);
    SpacedWindow(Times(h), PerMinute(c), a, 60.0);
    SpacedWindow(Times(h), Max0(Ceil(c.globalMax)), a, 1.0);
    SpacedWindow(TimesOf(h, imsi), Max0(c.maxSubDay), a, 86400.0);
  }
}

/**
The limiter as the service holds it.
*/
module RateLimiting {
  import opened RateSpec

  class RateLimiter {
    const c: Config
    var inflight: map<string, real>
    var lastSend: map<string, real>
    var subDay: map<string, seq<real>>
    var globalMin: seq<real>
    var globalSec: seq<real>
    var breakerOpen: bool

    ghost function Value(): State
      reads this
    {
      State(inflight, lastSend, subDay, globalMin, globalSec, breakerOpen)
    }

    constructor (c_: Config)
      ensures c == c_ && Value() == Fresh()
    {
      c := c_;
      inflight, lastSend, subDay := map[], map[], map[];
      globalMin, globalSec, breakerOpen := [], [], false;
    }

    /** _global_count() */
    method GlobalCount(now: real) returns (n: nat)
      modifies this`globalMin
      ensures globalMin == Prune(old(globalMin), now, 60.0) && n == |globalMin|
    {
      while globalMin != [] && now - globalMin[0] > 60.0
        invariant Prune(globalMin, now, 60.0) == Prune(old(globalMin), now, 60.0)
        decreases |globalMin|
      {
        globalMin := globalMin[1..];
      }
      return |globalMin|;
    }

    /** The caps of check(), past the breaker. */
    method CheckCaps(imsi: string, now: real) returns (r: Reason)
      modifies this`globalSec, this`subDay
      ensures globalSec == Prune(old(globalSec), now, 1.0)
      ensures if |globalSec| as real >= c.globalMax then r == RateGlobalSec && subDay == old(subDay)
              else var dq := Prune(Get(old(subDay), imsi), now, 86400.0);
                   subDay == old(subDay)[imsi := dq] && r == if |dq| >= c.maxSubDay then RateSubDay else Allowed
    {
      while globalSec != [] && now - globalSec[0] > 1.0
        invariant Prune(globalSec, now, 1.0) == Prune(old(globalSec), now, 1.0) && subDay == old(subDay)
        decreases |globalSec|
      {
        globalSec := globalSec[1..];
      }
      if |globalSec| as real >= c.globalMax {
        return RateGlobalSec;
      }
      var dq := Get(subDay, imsi);
      while dq != [] && now - dq[0] > 86400.0
        invariant Prune(dq, now, 86400.0) == Prune(Get(old(subDay), imsi), now, 86400.0)
        invariant subDay == old(subDay) && globalSec == Prune(old(globalSec), now, 1.0)
        decreases |dq|
      {
        dq := dq[1..];
      }
      subDay := subDay[imsi := dq];
      return if |dq| >= c.maxSubDay then RateSubDay else Allowed;
    }

    /** check() */
    method Check(imsi: string, now: real) returns (r: Reason)
      modifies this
      ensures (Value(), r) == RateSpec.Check(c, old(Value()), imsi, now)
    {
      if imsi in inflight && now - inflight[imsi] < c.dedup {
        return InFlight;
      }
      if imsi in lastSend && now - lastSend[imsi] < c.dedup {
        return DuplicateRecent;
      }
      var gmin := GlobalCount(now);
      if breakerOpen {
        if gmin <= c.breakerResume {
          breakerOpen := false;
        } else {
          return CircuitOpen;
        }
      } else if gmin >= c.breakerPerMin {
        breakerOpen := true;
        return CircuitOpen;
      }
      r := CheckCaps(imsi, now);
    }

    /** start_send() */
    method StartSend(imsi: string, now: real)
      modifies this`inflight
      ensures Value() == RateSpec.StartSend(old(Value()), imsi, now)
    {
      inflight := inflight[imsi := now];
    }

    /** finish_send() */
    method FinishSend(imsi: string, now: real, success: bool)
      modifies this
      ensures Value() == RateSpec.FinishSend(old(Value()), imsi, now, success)
    {
      inflight := inflight - {imsi};
      if success {
        lastSend := lastSend[imsi := now];
        subDay := subDay[imsi := Get(subDay, imsi) + [now]];
        globalMin := globalMin + [now];
        globalSec := globalSec + [now];
      }
    }

    /** The calls of any number of senders, one after the other. */
    method Handle(es: seq<Event>)
      requires Value() == Fresh()
      modifies this
      ensures Value() == HandledAll(c, es)
    {
      for n := 0 to |es|
        invariant Value() == HandledAll(c, es[..n])
      {
        assert es[..n + 1][..n] == es[..n];
        match es[n]
        case Checked(imsi, now) => var _ := Check(imsi, now);
        case Began(imsi, now) => StartSend(imsi, now);
        case Ended(imsi, now, success) => FinishSend(imsi, now, success);
      }
      assert es[..|es|] == es;
    }

    /** The service's pass over one subscriber: check, and send if allowed. */
    method Attempt(a: RateSpec.Attempt)
      modifies this
      ensures Value() == Step(c, old(Value()), a)
    {
      var r := Check(a.imsi, a.now);
      if r == Allowed && a.send {
        StartSend(a.imsi, a.now);
        FinishSend(a.imsi, a.fin, a.success);
      }
    }

    /** The service's run over all its subscribers. */
    method Serve(as_: seq<RateSpec.Attempt>)
      requires Value() == Fresh()
      modifies this
      ensures Value() == Run(c, as_)
    {
      for n := 0 to |as_|
        invariant Value() == Run(c, as_[..n])
      {
        assert as_[..n + 1][..n] == as_[..n];
        Attempt(as_[n]);
      }
      assert as_[..|as_|] == as_;
    }
  }
}
