/** How a wait ends: for both modes of waitForEvents, the exact conditions on poll's answers
    under which the result is success, timeout or error. */
module WaitOutcomes {
  import opened EventWait

  // ---- nothing to wait for, one to wait for ----

  /** A list without a descriptor that poll looks at is a success at once. */
  lemma NothingPolled(fds: seq<int>, waitAll: bool, timeoutMs: int, o: Oracle, budget: nat)
    requires forall i | 0 <= i < |fds| :: fds[i] < 0
    ensures Wait(fds, waitAll, timeoutMs, o, budget).outcome == Success
  {
    if NonNegative(fds) != [] { var i := KeptIsThere(fds, 0); }
  }

  /** How many places hold a descriptor that poll looks at. */
  function Polled(fds: seq<int>): (n: nat)
    ensures n <= |fds| && n == |NonNegative(fds)|
  {
    Kept(fds);
    |NonNegative(fds)|
  }

  ghost function PolledPlaces(fds: seq<int>): set<int> {
    set i | 0 <= i < |fds| && fds[i] >= 0
  }

  lemma {:induction false} PolledCounts(fds: seq<int>)
    ensures Polled(fds) == |PolledPlaces(fds)|
    decreases |fds|
  {
    if fds != [] {
      var last := |fds| - 1;
      PolledCounts(fds[..last]);
      assert PolledPlaces(fds) == PolledPlaces(fds[..last]) + if fds[last] < 0 then {} else {last};
    }
  }

  /** In round `r` poll reports POLLIN for a descriptor of the list. The first round polls all
      that are not negative. Once it is over the code takes the first places of the list for
      the polled ones, as many as there are, negative or not. */
  ghost predicate Reports(fds: seq<int>, o: Oracle, r: nat) {
    exists i: nat :: i < (if r == 0 then |fds| else Polled(fds)) && Pollin(o, r, fds[i])
  }

  /** Before round `r` nothing has ended a wait for one. */
  ghost predicate QuietBefore(fds: seq<int>, timed: bool, o: Oracle, r: nat) {
    forall q: nat | q < r :: !o.fails(q) && !Reports(fds, o, q) && !timed
  }

  lemma {:induction false} KeptReports(fds: seq<int>, o: Oracle, r: nat)
    ensures AnyPollin(NonNegative(fds), o, r) <==> exists i: nat :: i < |fds| && Pollin(o, r, fds[i])
  {
    if AnyPollin(NonNegative(fds), o, r) {
      var e: nat :| e < |NonNegative(fds)| && Pollin(o, r, NonNegative(fds)[e]);
      var i := KeptIsThere(fds, e);
      assert Pollin(o, r, fds[i]);
    }
    if i: nat :| i < |fds| && Pollin(o, r, fds[i]) {
      KeptIn(fds, fds[i]);
      var e :| 0 <= e < |NonNegative(fds)| && NonNegative(fds)[e] == fds[i];
    }
  }

  /** A scan that meets no POLLIN changes nothing. */
  lemma {:induction false} QuietScan(fds: seq<int>, pfds: seq<int>, o: Oracle, round: nat, i: nat, s: Scan)
    requires |s.signaled| == |fds| && s.remaining == |pfds| && !AnyPollin(pfds, o, round)
    ensures ScanFrom(fds, pfds, o, round, i, s) == s
    decreases |pfds| - i
  {
    if i < |pfds| { QuietScan(fds, pfds, o, round, i + 1, s); }
  }

  /** What a wait for one polls in round `r`, if it gets there. */
  ghost predicate PollsForOne(fds: seq<int>, pfds: seq<int>, r: nat) {
    pfds == if r == 0 then NonNegative(fds) else fds[..Polled(fds)]
  }

  lemma PollsReports(fds: seq<int>, pfds: seq<int>, o: Oracle, r: nat)
    requires PollsForOne(fds, pfds, r)
    ensures AnyPollin(pfds, o, r) <==> Reports(fds, o, r)
  {
    KeptReports(fds, o, r);
    if i: nat :| r > 0 && i < Polled(fds) && Pollin(o, r, fds[i]) { assert pfds[i] == fds[i]; }
    if e: nat :| r > 0 && e < |pfds| && Pollin(o, r, pfds[e]) { assert pfds[e] == fds[e]; }
  }

  /** The round in which a wait for one ends, or all its rounds. */
  lemma {:induction false} OneRounds(fds: seq<int>, waitAll: bool, timed: bool, o: Oracle, round: nat, budget: nat,
                                     pfds: seq<int>, signaled: seq<bool>) returns (r: nat)
    requires 0 < |pfds| == Polled(fds) == |signaled| && (!waitAll || |pfds| == 1)
    requires PollsForOne(fds, pfds, round) && QuietBefore(fds, timed, o, round)
    requires forall j | 0 <= j < |signaled| :: !signaled[j]
    ensures r <= round + budget && QuietBefore(fds, timed, o, r)
    ensures Rounds(fds[..|pfds|], waitAll, timed, o, round, budget, pfds, signaled, {}).outcome
         == if r == round + budget then StillWaiting
            else if o.fails(r) then Error else if Reports(fds, o, r) then Success else Timeout
    ensures r < round + budget ==> o.fails(r) || Reports(fds, o, r) || timed
    decreases budget
  {
    r := round;
    var window, s := fds[..|pfds|], Scan(|pfds|, signaled, false, {});
    if budget > 0 && !o.fails(round) {
      PollsReports(fds, pfds, o, round);
      if !Reports(fds, o, round) {
        QuietScan(window, pfds, o, round, 0, s);
        if !timed {
          AllOpen(window, signaled, |window|);
          assert NextPolled(window, pfds, s) == window;
          r := OneRounds(fds, waitAll, timed, o, round + 1, budget - 1, window, signaled);
        }
      }
    }
  }

  /** A wait for one, or for all of a list with one descriptor to poll. It succeeds if and
      only if the first round in which poll fails, reports POLLIN or times out is one that
      reports; and so for the other results. */
  lemma FirstReportDecides(fds: seq<int>, waitAll: bool, timeoutMs: int, o: Oracle, budget: nat)
    requires Polled(fds) > 0 && (!waitAll || Polled(fds) == 1)
    ensures var w, timed := Wait(fds, waitAll, timeoutMs, o, budget).outcome, timeoutMs > 0;
      && (w == Success <==>
            exists r: nat :: r < budget && QuietBefore(fds, timed, o, r) && !o.fails(r) && Reports(fds, o, r))
      && (w == Error <==> exists r: nat :: r < budget && QuietBefore(fds, timed, o, r) && o.fails(r))
      && (w == Timeout <==> budget > 0 && timed && !o.fails(0) && !Reports(fds, o, 0))
      && (w == StillWaiting <==> QuietBefore(fds, timed, o, budget))
  {
    var n := Polled(fds);
    var r := OneRounds(fds, waitAll, timeoutMs > 0, o, 0, budget, NonNegative(fds), seq(n, _ => false));
    forall q: nat | q < budget && QuietBefore(fds, timeoutMs > 0, o, q) && (o.fails(q) || Reports(fds, o, q))
      ensures q == r
    {}
  }

  // ---- a round of a wait for all, entry by entry ----

  /** How many of the first `i` polled entries have POLLIN. */
  function Ready(pfds: seq<int>, o: Oracle, round: nat, i: nat): (n: nat)
    requires i <= |pfds|
    ensures n <= i
  {
    if i == 0 then 0 else Ready(pfds, o, round, i - 1) + if Pollin(o, round, pfds[i - 1]) then 1 else 0
  }

  /** The scan comes to entry `i` and finds POLLIN. Its bound has gone down by one for each
      entry that it found before, so the last entries may not be looked at. */
  predicate Seen(pfds: seq<int>, o: Oracle, round: nat, i: nat) {
    i < |pfds| && i + Ready(pfds, o, round, i) < |pfds| && Pollin(o, round, pfds[i])
  }

  lemma {:induction false} ReadyGrows(pfds: seq<int>, o: Oracle, round: nat, i: nat, k: nat)
    requires i <= k <= |pfds|
    ensures Ready(pfds, o, round, i) <= Ready(pfds, o, round, k)
    decreases k
  {
    if i < k { ReadyGrows(pfds, o, round, i, k - 1); }
  }

  /** A place's descriptor has POLLIN in an entry from `i` on that the scan comes to. */
  ghost predicate SeenFor(fds: seq<int>, pfds: seq<int>, o: Oracle, round: nat, i: nat, j: nat) {
    exists k: nat :: i <= k && Seen(pfds, o, round, k) && First(fds, pfds[k], 0) == j
  }

  ghost predicate SeenKnown(fds: seq<int>, pfds: seq<int>, o: Oracle, round: nat, i: nat) {
    exists k: nat :: i <= k && Seen(pfds, o, round, k) && First(fds, pfds[k], 0) < |fds|
  }

  lemma NoneSeen(pfds: seq<int>, o: Oracle, round: nat, i: nat)
    requires i <= |pfds| <= i + Ready(pfds, o, round, i)
    ensures forall k: nat | i <= k :: !Seen(pfds, o, round, k)
  {
    forall k: nat | i <= k < |pfds|
      ensures !Seen(pfds, o, round, k)
    {
      ReadyGrows(pfds, o, round, i, k);
    }
  }

  /** The scan from entry `i` on, in terms of the entries with POLLIN that it comes to. */
  lemma {:induction false} ScanSees(fds: seq<int>, pfds: seq<int>, o: Oracle, round: nat, i: nat, s: Scan)
      returns (stop: nat)
    requires |s.signaled| == |fds| && i <= |pfds| && s.remaining == |pfds| - Ready(pfds, o, round, i)
    ensures i <= stop <= |pfds| && (stop > i ==> stop - 1 + Ready(pfds, o, round, stop - 1) < |pfds|)
    ensures |pfds| <= stop + Ready(pfds, o, round, stop)
    ensures var r := ScanFrom(fds, pfds, o, round, i, s);
      && r.remaining == |pfds| - Ready(pfds, o, round, stop)
      && (r.any <==> s.any || SeenKnown(fds, pfds, o, round, i))
      && forall j: nat | j < |fds| :: r.signaled[j] <==> s.signaled[j] || SeenFor(fds, pfds, o, round, i, j)
    decreases |pfds| - i
  {
    if i >= s.remaining {
      stop := i;
      NoneSeen(pfds, o, round, i);
    } else {
      var next := if Pollin(o, round, pfds[i]) then See(fds, pfds[i], s) else s;
      stop := ScanSees(fds, pfds, o, round, i + 1, next);
      SeenHere(fds, pfds, o, round, i);
    }
  }

  lemma SeenHere(fds: seq<int>, pfds: seq<int>, o: Oracle, round: nat, i: nat)
    requires i < |pfds| && i + Ready(pfds, o, round, i) < |pfds|
    ensures SeenKnown(fds, pfds, o, round, i)
       <==> SeenKnown(fds, pfds, o, round, i + 1) || (Pollin(o, round, pfds[i]) && First(fds, pfds[i], 0) < |fds|)
    ensures forall j: nat ::
              SeenFor(fds, pfds, o, round, i, j)
              <==> SeenFor(fds, pfds, o, round, i + 1, j) || (Pollin(o, round, pfds[i]) && First(fds, pfds[i], 0) == j)
  {
    assert Pollin(o, round, pfds[i]) <==> Seen(pfds, o, round, i);
  }

  /** A scan counts down to nothing if and only if it has one entry and that has POLLIN. */
  lemma ScanEmpties(fds: seq<int>, pfds: seq<int>, o: Oracle, round: nat, s: Scan)
    requires |s.signaled| == |fds| && s.remaining == |pfds| > 0
    ensures ScanFrom(fds, pfds, o, round, 0, s).remaining == 0 <==> |pfds| == 1 && Pollin(o, round, pfds[0])
  {
    var stop := ScanSees(fds, pfds, o, round, 0, s);
    if pfds == [pfds[0]] { assert Ready(pfds, o, round, 1) == if Pollin(o, round, pfds[0]) then 1 else 0; }
  }

  // ---- the rounds of a wait for all ----

  /** What a wait for all polls in a round, the flags it has set before, and what it has seen. */
  datatype Polling = Polling(pfds: seq<int>, signaled: seq<bool>, reported: set<int>)

  /** The part of the list that has flags. */
  function Window(fds: seq<int>): (w: seq<int>)
    ensures |w| == Polled(fds)
  {
    fds[..Polled(fds)]
  }

  function At(fds: seq<int>, o: Oracle, r: nat): (p: Polling)
    ensures |p.pfds| <= |p.signaled| == Polled(fds)
  {
    if r == 0 then Polling(NonNegative(fds), seq(Polled(fds), _ => false), {})
    else
      var s := Scanned(fds, o, r - 1, At(fds, o, r - 1));
      Polling(NextPolled(Window(fds), At(fds, o, r - 1).pfds, s), s.signaled, s.reported)
  }

  function Scanned(fds: seq<int>, o: Oracle, r: nat, p: Polling): (s: Scan)
    requires |p.pfds| <= |p.signaled| == Polled(fds)
    ensures |s.signaled| == Polled(fds) && s.remaining <= |p.pfds|
  {
    ScanFrom(Window(fds), p.pfds, o, r, 0, Scan(|p.pfds|, p.signaled, false, p.reported))
  }

  /** From one round to the next: a flag is set for the first place of each descriptor that the
      scan comes to and finds POLLIN for, the list is one shorter for each such entry, and it
      holds the descriptors without a flag and behind them what was there before. */
  lemma RoundMeans(fds: seq<int>, o: Oracle, r: nat) returns (stop: nat)
    ensures var p, q, n := At(fds, o, r), At(fds, o, r + 1), Polled(fds);
      && (forall j: nat | j < n ::
            q.signaled[j] <==> p.signaled[j] || exists k: nat ::
                 Seen(p.pfds, o, r, k) && p.pfds[k] == fds[j] && forall i: nat | i < j :: fds[i] != fds[j])
      && stop <= |p.pfds| <= stop + Ready(p.pfds, o, r, stop)
      && (stop > 0 ==> stop - 1 + Ready(p.pfds, o, r, stop - 1) < |p.pfds|)
      && |q.pfds| == |p.pfds| - Ready(p.pfds, o, r, stop)
      && var u := Open(Window(fds), q.signaled, n);
         forall e: nat | e < |q.pfds| :: q.pfds[e] == if e < |u| then u[e] else p.pfds[e]
  {
    var p, n := At(fds, o, r), Polled(fds);
    stop := ScanSees(Window(fds), p.pfds, o, r, 0, Scan(|p.pfds|, p.signaled, false, p.reported));
    forall j: nat, k: nat | j < n && Seen(p.pfds, o, r, k)
      ensures First(Window(fds), p.pfds[k], 0) == j
         <==> p.pfds[k] == fds[j] && forall i: nat | i < j :: fds[i] != fds[j]
    {
      FirstPlace(fds, n, p.pfds[k], j);
    }
  }

  lemma FirstPlace(fds: seq<int>, n: nat, fd: int, j: nat)
    requires j < n <= |fds|
    ensures First(fds[..n], fd, 0) == j <==> fd == fds[j] && forall i: nat | i < j :: fds[i] != fds[j]
  {
    var w := fds[..n];
    assert forall i | 0 <= i < n :: w[i] == fds[i];
  }

  /** Round `r` flags something. */
  ghost predicate Found(fds: seq<int>, o: Oracle, r: nat) {
    var pfds := At(fds, o, r).pfds;
    exists k: nat :: Seen(pfds, o, r, k) && pfds[k] in Window(fds)
  }

  /** Round `r` polls a single descriptor, and that has POLLIN. */
  predicate LastReports(fds: seq<int>, o: Oracle, r: nat) {
    var pfds := At(fds, o, r).pfds;
    |pfds| == 1 && Pollin(o, r, pfds[0])
  }

  /** Before round `r` nothing has ended a wait for all. */
  ghost predicate GoesOnBefore(fds: seq<int>, timed: bool, o: Oracle, r: nat) {
    forall q: nat | q < r :: !o.fails(q) && (timed ==> Found(fds, o, q)) && !LastReports(fds, o, q)
  }

  lemma RoundEnds(fds: seq<int>, o: Oracle, r: nat)
    requires At(fds, o, r).pfds != []
    ensures var s := Scanned(fds, o, r, At(fds, o, r));
      (s.any <==> Found(fds, o, r)) && (s.remaining == 0 <==> LastReports(fds, o, r))
  {
    var p, w := At(fds, o, r), Window(fds);
    var s := Scan(|p.pfds|, p.signaled, false, p.reported);
    var stop := ScanSees(w, p.pfds, o, r, 0, s);
    ScanEmpties(w, p.pfds, o, r, s);
    forall k: nat | Seen(p.pfds, o, r, k)
      ensures First(w, p.pfds[k], 0) < |w| <==> p.pfds[k] in w
    {
      if j: nat :| j < |w| && w[j] == p.pfds[k] {}
    }
  }

  /** The round in which a wait for all ends, or all its rounds. */
  lemma {:induction false} AllRounds(fds: seq<int>, timed: bool, o: Oracle, round: nat, budget: nat) returns (r: nat)
    requires Polled(fds) > 1 && At(fds, o, round).pfds != [] && GoesOnBefore(fds, timed, o, round)
    ensures r <= round + budget && GoesOnBefore(fds, timed, o, r)
    ensures var p := At(fds, o, round);
      Rounds(Window(fds), true, timed, o, round, budget, p.pfds, p.signaled, p.reported).outcome
      == if r == round + budget then StillWaiting
         else if o.fails(r) then Error else if timed && !Found(fds, o, r) then Timeout else Success
    ensures r < round + budget ==> o.fails(r) || (timed && !Found(fds, o, r)) || LastReports(fds, o, r)
    decreases budget
  {
    r := round;
    if budget > 0 && !o.fails(round) {
      RoundEnds(fds, o, round);
      if (timed ==> Found(fds, o, round)) && !LastReports(fds, o, round) {
        r := AllRounds(fds, timed, o, round + 1, budget - 1);
      }
    }
  }

  /** A wait for all of a list with several descriptors to poll: the first round in which poll
      fails, or a timed poll flags nothing, or the only descriptor left has POLLIN, decides, in
      this order, whether the result is error, timeout or success. */
  lemma LastReportDecides(fds: seq<int>, timeoutMs: int, o: Oracle, budget: nat)
    requires Polled(fds) > 1
    ensures var w, timed := Wait(fds, true, timeoutMs, o, budget).outcome, timeoutMs > 0;
      && (w == Success <==>
            exists r: nat ::
              r < budget && GoesOnBefore(fds, timed, o, r)
              && !o.fails(r) && (timed ==> Found(fds, o, r)) && LastReports(fds, o, r))
      && (w == Error <==> exists r: nat :: r < budget && GoesOnBefore(fds, timed, o, r) && o.fails(r))
      && (w == Timeout <==>
            exists r: nat ::
              r < budget && GoesOnBefore(fds, timed, o, r)
              && !o.fails(r) && timed && !Found(fds, o, r))
      && (w == StillWaiting <==> GoesOnBefore(fds, timed, o, budget))
  {
    var timed := timeoutMs > 0;
    var r := AllRounds(fds, timed, o, 0, budget);
    forall q: nat | q < budget && GoesOnBefore(fds, timed, o, q)
        && (o.fails(q) || (timed && !Found(fds, o, q)) || LastReports(fds, o, q))
      ensures q == r
    {}
  }

  // ---- lists without negative descriptors ----

  lemma {:induction false} OpenIn(fds: seq<int>, signaled: seq<bool>, m: nat)
    requires |signaled| == |fds| && m <= |fds|
    ensures forall e | 0 <= e < |Open(fds, signaled, m)| :: Open(fds, signaled, m)[e] in fds
    decreases m
  {
    if m > 0 { OpenIn(fds, signaled, m - 1); }
  }

  lemma {:induction false} PolledKnown(fds: seq<int>, o: Oracle, r: nat)
    requires forall i | 0 <= i < |fds| :: fds[i] >= 0
    ensures Window(fds) == fds && forall e | 0 <= e < |At(fds, o, r).pfds| :: At(fds, o, r).pfds[e] in fds
    decreases r
  {
    AllNonNegative(fds);
    if r > 0 {
      PolledKnown(fds, o, r - 1);
      OpenIn(fds, At(fds, o, r).signaled, |fds|);
    }
  }

  /** Nothing but the first reported entry decides whether a round flags something: for lists
      without negative descriptors a timed wait for all times out in the first round in which
      poll reports no POLLIN for a polled descriptor, repeated ones or not. */
  lemma FoundIff(fds: seq<int>, o: Oracle, r: nat)
    requires forall i | 0 <= i < |fds| :: fds[i] >= 0
    ensures Found(fds, o, r) <==> AnyPollin(At(fds, o, r).pfds, o, r)
  {
    var pfds := At(fds, o, r).pfds;
    PolledKnown(fds, o, r);
    if AnyPollin(pfds, o, r) {
      var e: nat :| e < |pfds| && Pollin(o, r, pfds[e]);
      var k := FirstReady(pfds, o, r, e);
      assert Seen(pfds, o, r, k) && pfds[k] in Window(fds);
    }
  }

  lemma {:induction false} FirstReady(pfds: seq<int>, o: Oracle, round: nat, e: nat) returns (k: nat)
    requires e < |pfds| && Pollin(o, round, pfds[e])
    ensures k <= e && Seen(pfds, o, round, k)
    decreases e
  {
    if Ready(pfds, o, round, e) == 0 {
      k := e;
    } else {
      k := SomeReady(pfds, o, round, e);
      k := FirstReady(pfds, o, round, k);
    }
  }

  lemma {:induction false} SomeReady(pfds: seq<int>, o: Oracle, round: nat, i: nat) returns (k: nat)
    requires i <= |pfds| && Ready(pfds, o, round, i) > 0
    ensures k < i && Pollin(o, round, pfds[k])
    decreases i
  {
    if Pollin(o, round, pfds[i - 1]) { k := i - 1; } else { k := SomeReady(pfds, o, round, i - 1); }
  }
}
