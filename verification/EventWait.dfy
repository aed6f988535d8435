/** waitForEvents: the poll loop over a shrinking list of descriptors, against an oracle that
    says, round by round, whether poll fails and which descriptors have POLLIN. A wait that
    the rounds do not finish is `StillWaiting`. */
module EventWait {

  datatype Outcome = Success | Timeout | Error | StillWaiting

  /** The answers of poll: by round, and by round and descriptor. */
  datatype Oracle = Oracle(fails: nat -> bool, ready: (nat, int) -> bool)

  /** poll reports nothing for a negative descriptor. */
  predicate Pollin(o: Oracle, round: nat, fd: int) { fd >= 0 && o.ready(round, fd) }

  // ---- the loop, as functions ----

  function NonNegative(fds: seq<int>): seq<int> {
    if fds == [] then []
    else NonNegative(fds[..|fds| - 1]) + if fds[|fds| - 1] < 0 then [] else [fds[|fds| - 1]]
  }

  /** The index of the first `fd` in `fds` from `j` on, or the length. */
  function First(fds: seq<int>, fd: int, j: nat): (r: nat)
    requires j <= |fds|
    ensures j <= r <= |fds| && (r < |fds| ==> fds[r] == fd)
    ensures forall k | j <= k < r :: fds[k] != fd
    decreases |fds| - j
  {
    if j < |fds| && fds[j] != fd then First(fds, fd, j + 1) else j
  }

  /** The flags after the search for a reported descriptor. */
  function Mark(fds: seq<int>, fd: int, signaled: seq<bool>): (s: seq<bool>)
    requires |signaled| == |fds|
    ensures |s| == |fds|
  {
    var j := First(fds, fd, 0);
    if j < |fds| then signaled[j := true] else signaled
  }

  /** The descriptors among the first `m` that are not flagged, in order. */
  function Open(fds: seq<int>, signaled: seq<bool>, m: nat): (u: seq<int>)
    requires |signaled| == |fds| && m <= |fds|
    ensures |u| <= m
  {
    if m == 0 then [] else Open(fds, signaled, m - 1) + if signaled[m - 1] then [] else [fds[m - 1]]
  }

  /** What a scan of the polled descriptors has come to. `reported` collects the descriptors it
      has seen POLLIN for. */
  datatype Scan = Scan(remaining: nat, signaled: seq<bool>, any: bool, reported: set<int>)

  /** One polled descriptor with POLLIN. */
  function See(fds: seq<int>, fd: int, s: Scan): (r: Scan)
    requires |s.signaled| == |fds| && s.remaining > 0
    ensures |r.signaled| == |fds|
  {
    Scan(s.remaining - 1, Mark(fds, fd, s.signaled), s.any || First(fds, fd, 0) < |fds|, s.reported + {fd})
  }

  /** The scan from entry `i` on; the bound shrinks as it goes. */
  function ScanFrom(fds: seq<int>, pfds: seq<int>, o: Oracle, round: nat, i: nat, s: Scan): (r: Scan)
    requires |s.signaled| == |fds| && s.remaining <= |pfds|
    ensures |r.signaled| == |fds| && r.remaining <= s.remaining
    decreases |pfds| - i
  {
    if i >= s.remaining then s
    else ScanFrom(fds, pfds, o, round, i + 1, if Pollin(o, round, pfds[i]) then See(fds, pfds[i], s) else s)
  }

  predicate AnyPollin(pfds: seq<int>, o: Oracle, round: nat) {
    exists i :: 0 <= i < |pfds| && Pollin(o, round, pfds[i])
  }

  datatype Result = Result(outcome: Outcome, reported: set<int>)

  /** The do-while loop. `fds` is the part of the caller's list that the flags are for. */
  function Rounds(fds: seq<int>, waitAll: bool, timed: bool, o: Oracle, round: nat, budget: nat,
                  pfds: seq<int>, signaled: seq<bool>, reported: set<int>): Result
    requires |signaled| == |fds| && 0 < |pfds| <= |fds|
    decreases budget
  {
    if budget == 0 then Result(StillWaiting, reported)
    else if o.fails(round) then Result(Error, reported)
    else if (!waitAll || |fds| == 1) && AnyPollin(pfds, o, round) then
      Result(Success, reported + FirstPollin(pfds, o, round))
    else
      var s := ScanFrom(fds, pfds, o, round, 0, Scan(|pfds|, signaled, false, reported));
      if !s.any && timed then Result(Timeout, s.reported)
      else if s.remaining == 0 then Result(Success, s.reported)
      else Rounds(fds, waitAll, timed, o, round + 1, budget - 1, NextPolled(fds, pfds, s), s.signaled, s.reported)
  }

  /** The entries that the next round polls: the rebuilt list over what was there before. */
  function NextPolled(fds: seq<int>, pfds: seq<int>, s: Scan): (p: seq<int>)
    requires |s.signaled| == |fds| && s.remaining <= |pfds|
    ensures |p| == s.remaining
  {
    var u := Open(fds, s.signaled, |fds|);
    if s.remaining <= |u| then u[..s.remaining] else u + pfds[|u|..s.remaining]
  }

  function FirstPollin(pfds: seq<int>, o: Oracle, round: nat): set<int> {
    if pfds == [] then {} else if Pollin(o, round, pfds[0]) then {pfds[0]} else FirstPollin(pfds[1..], o, round)
  }

  /** waitForEvents. */
  function Wait(fds: seq<int>, waitAll: bool, timeoutMs: int, o: Oracle, budget: nat): Result {
    var polled := NonNegative(fds);
    if polled == [] then Result(Success, {})
    else
      Kept(fds);
      Rounds(fds[..|polled|], waitAll, timeoutMs > 0, o, 0, budget, polled, seq(|polled|, _ => false), {})
  }

  lemma {:induction false} Kept(fds: seq<int>)
    ensures |NonNegative(fds)| <= |fds|
    decreases |fds|
  {
    if fds != [] { Kept(fds[..|fds| - 1]); }
  }

  // ---- the open descriptors ----

  lemma {:induction false} OpenSame(fds: seq<int>, a: seq<bool>, b: seq<bool>, m: nat)
    requires |a| == |fds| && |b| == |fds| && m <= |fds| && forall j | 0 <= j < m :: a[j] == b[j]
    ensures Open(fds, a, m) == Open(fds, b, m)
    decreases m
  {
    if m > 0 { OpenSame(fds, a, b, m - 1); }
  }

  lemma {:induction false} OpenLoses(fds: seq<int>, signaled: seq<bool>, j: nat, m: nat)
    requires |signaled| == |fds| && j < m <= |fds| && !signaled[j]
    ensures |Open(fds, signaled[j := true], m)| == |Open(fds, signaled, m)| - 1
    decreases m
  {
    if j == m - 1 {
      OpenSame(fds, signaled, signaled[j := true], j);
    } else {
      OpenLoses(fds, signaled, j, m - 1);
    }
  }

  lemma {:induction false} OpenTail(fds: seq<int>, signaled: seq<bool>, m: nat, n: nat)
    requires |signaled| == |fds| && m <= n <= |fds| && forall j | m <= j < n :: !signaled[j]
    ensures Open(fds, signaled, n) == Open(fds, signaled, m) + fds[m..n]
    decreases n
  {
    if m < n {
      OpenTail(fds, signaled, m, n - 1);
      assert fds[m..n] == fds[m..n - 1] + [fds[n - 1]];
    } else {
      assert fds[m..n] == [];
    }
  }

  /** Each open entry stems from an unflagged place, in order. */
  lemma {:induction false} OpenStems(fds: seq<int>, signaled: seq<bool>, m: nat, e: nat) returns (j: nat)
    requires |signaled| == |fds| && m <= |fds| && e < |Open(fds, signaled, m)|
    ensures e <= j < m && !signaled[j] && fds[j] == Open(fds, signaled, m)[e]
    ensures |Open(fds, signaled, j)| == e
    decreases m
  {
    if e < |Open(fds, signaled, m - 1)| { j := OpenStems(fds, signaled, m - 1, e); } else { j := m - 1; }
  }

  lemma {:induction false} OpenHolds(fds: seq<int>, signaled: seq<bool>, m: nat, j: nat) returns (e: nat)
    requires |signaled| == |fds| && j < m <= |fds| && !signaled[j]
    ensures e < |Open(fds, signaled, m)| && Open(fds, signaled, m)[e] == fds[j] && e == |Open(fds, signaled, j)|
    decreases m
  {
    if j == m - 1 { e := |Open(fds, signaled, j)|; } else { e := OpenHolds(fds, signaled, m - 1, j); }
  }

  // ---- which lists are waited for correctly ----

  predicate Repeats(fds: seq<int>, d: nat) {
    d < |fds| && First(fds, fds[d], 0) < d
  }

  /** Every repeated descriptor comes after all the distinct ones. */
  ghost predicate RepeatsLast(fds: seq<int>) {
    forall d: nat, p: nat | d < p < |fds| && Repeats(fds, d) :: Repeats(fds, p)
  }

  ghost predicate AllReported(fds: seq<int>, r: Result) {
    r.outcome == Success ==> forall i | 0 <= i < |fds| :: fds[i] in r.reported
  }

  ghost predicate Sound(fds: seq<int>) {
    forall o: Oracle, timeoutMs: int, budget: nat :: AllReported(fds, Wait(fds, true, timeoutMs, o, budget))
  }

  /** The first `m` descriptors are distinct, and the others repeat them. */
  ghost predicate Heads(fds: seq<int>, m: nat) {
    m <= |fds| && (forall j: nat | j < m :: !Repeats(fds, j)) && (forall j: nat | m <= j < |fds| :: Repeats(fds, j))
  }

  lemma RepeatsSplit(fds: seq<int>) returns (m: nat)
    requires RepeatsLast(fds)
    ensures Heads(fds, m)
  {
    m := 0;
    while m < |fds| && !Repeats(fds, m)
      invariant m <= |fds| && forall j: nat | j < m :: !Repeats(fds, j)
    {
      m := m + 1;
    }
  }

  /** What every round keeps: a head is flagged exactly when its descriptor has been reported,
      repeats are never flagged, and the count is at least that of the open heads. */
  ghost predicate Counts(fds: seq<int>, m: nat, s: Scan) {
    && Heads(fds, m) && |s.signaled| == |fds|
    && (forall j | 0 <= j < m :: s.signaled[j] <==> fds[j] in s.reported)
    && (forall j | m <= j < |fds| :: !s.signaled[j])
    && |Open(fds, s.signaled, m)| <= s.remaining <= |Open(fds, s.signaled, m)| + (|fds| - m)
  }

  /** During a scan of `pfds` that has come to entry `i`; the first `u` entries are open heads. */
  ghost predicate Scanning(fds: seq<int>, m: nat, pfds: seq<int>, u: nat, o: Oracle, round: nat, i: nat, s: Scan) {
    && Counts(fds, m, s) && s.remaining <= |pfds|
    && |Open(fds, s.signaled, m)| <= u
    && (forall e | i <= e < u && e < |pfds| :: pfds[e] !in s.reported)
    && (forall e | 0 <= e < i && e < u && e < |pfds| :: Pollin(o, round, pfds[e]) ==> pfds[e] in s.reported)
  }

  /** The polled entries of a round: open heads, distinct, and then repeats of heads that are
      reported or among them. */
  ghost predicate Polled(fds: seq<int>, m: nat, pfds: seq<int>, u: nat, reported: set<int>) {
    && Heads(fds, m)
    && (forall e | 0 <= e < u && e < |pfds| :: IsHead(fds, m, pfds[e]))
    && (forall e, f | 0 <= e < f < u && f < |pfds| :: pfds[e] != pfds[f])
    && (forall e | u <= e < |pfds| :: IsHead(fds, m, pfds[e]) && (pfds[e] in reported || pfds[e] in pfds[..u]))
  }

  predicate IsHead(fds: seq<int>, m: nat, fd: int) {
    First(fds, fd, 0) < m
  }

  lemma SeeHead(fds: seq<int>, m: nat, pfds: seq<int>, u: nat, o: Oracle, round: nat, i: nat, s: Scan)
    requires Scanning(fds, m, pfds, u, o, round, i, s) && i < s.remaining && i < u && Pollin(o, round, pfds[i])
    requires IsHead(fds, m, pfds[i]) && forall e | i < e < u && e < |pfds| :: pfds[e] != pfds[i]
    ensures Scanning(fds, m, pfds, u, o, round, i + 1, See(fds, pfds[i], s))
    ensures |Open(fds, See(fds, pfds[i], s).signaled, m)| == |Open(fds, s.signaled, m)| - 1
  {
    var j := First(fds, pfds[i], 0);
    OpenLoses(fds, s.signaled, j, m);
    forall k: nat | k < m && k != j
      ensures fds[k] != pfds[i]
    {
      assert !Repeats(fds, k);
    }
  }

  lemma SeeRepeat(fds: seq<int>, m: nat, pfds: seq<int>, u: nat, o: Oracle, round: nat, i: nat, s: Scan)
    requires Scanning(fds, m, pfds, u, o, round, i, s) && u <= i < s.remaining && Pollin(o, round, pfds[i])
    requires IsHead(fds, m, pfds[i]) && (pfds[i] in s.reported || pfds[i] in pfds[..u])
    ensures Scanning(fds, m, pfds, u, o, round, i + 1, See(fds, pfds[i], s))
  {
    var j := First(fds, pfds[i], 0);
    assert s.signaled[j];
    assert Mark(fds, pfds[i], s.signaled) == s.signaled;
  }

  lemma {:induction false} ScanCounts(fds: seq<int>, m: nat, pfds: seq<int>, u: nat, o: Oracle, round: nat, i: nat,
                                      s: Scan, reported: set<int>)
    requires Scanning(fds, m, pfds, u, o, round, i, s) && u <= |pfds| && Polled(fds, m, pfds, u, reported)
        && reported <= s.reported
    ensures Counts(fds, m, ScanFrom(fds, pfds, o, round, i, s))
    ensures u == |pfds| && s.remaining == |Open(fds, s.signaled, m)| ==>
              var r := ScanFrom(fds, pfds, o, round, i, s); r.remaining == |Open(fds, r.signaled, m)|
    decreases |pfds| - i
  {
    if i < s.remaining {
      if !Pollin(o, round, pfds[i]) {
        ScanCounts(fds, m, pfds, u, o, round, i + 1, s, reported);
      } else {
        if i < u {
          SeeHead(fds, m, pfds, u, o, round, i, s);
        } else {
          SeeRepeat(fds, m, pfds, u, o, round, i, s);
        }
        ScanCounts(fds, m, pfds, u, o, round, i + 1, See(fds, pfds[i], s), reported);
      }
    }
  }

  /** The polled entries of a round are the open ones, from the first on. */
  ghost predicate PollsOpen(fds: seq<int>, m: nat, pfds: seq<int>, s: Scan) {
    Counts(fds, m, s) && s.remaining == |pfds| && |pfds| <= |Open(fds, s.signaled, |fds|)|
    && pfds == Open(fds, s.signaled, |fds|)[..|pfds|]
  }

  lemma PolledHead(fds: seq<int>, m: nat, pfds: seq<int>, s: Scan, e: nat) returns (j: nat)
    requires PollsOpen(fds, m, pfds, s) && e < |Open(fds, s.signaled, m)|
    ensures e < |pfds| && j < m && pfds[e] == fds[j] && !s.signaled[j] && |Open(fds, s.signaled, j)| == e
    ensures IsHead(fds, m, pfds[e]) && pfds[e] !in s.reported
  {
    OpenTail(fds, s.signaled, m, |fds|);
    j := OpenStems(fds, s.signaled, m, e);
    assert !Repeats(fds, j);
  }

  lemma PolledRepeat(fds: seq<int>, m: nat, pfds: seq<int>, s: Scan, e: nat)
    requires PollsOpen(fds, m, pfds, s) && |Open(fds, s.signaled, m)| <= e < |pfds|
    ensures IsHead(fds, m, pfds[e])
    ensures pfds[e] in s.reported || pfds[e] in pfds[..|Open(fds, s.signaled, m)|]
  {
    var u := |Open(fds, s.signaled, m)|;
    OpenTail(fds, s.signaled, m, |fds|);
    assert pfds[e] == fds[m + (e - u)];
    var j := HeadOf(fds, m, m + (e - u));
    if !s.signaled[j] {
      var f := OpenHolds(fds, s.signaled, m, j);
      assert pfds[..u][f] == fds[j];
    }
  }

  /** The head that a repeated descriptor repeats. */
  lemma HeadOf(fds: seq<int>, m: nat, d: nat) returns (j: nat)
    requires Heads(fds, m) && m <= d < |fds|
    ensures j < m && j == First(fds, fds[d], 0) && fds[j] == fds[d]
  {
    assert Repeats(fds, d);
    j := First(fds, fds[d], 0);
    assert First(fds, fds[j], 0) == j;
    assert !Repeats(fds, j);
  }

  lemma PolledDiffer(fds: seq<int>, m: nat, pfds: seq<int>, s: Scan, e: nat, f: nat)
    requires PollsOpen(fds, m, pfds, s) && e < f < |Open(fds, s.signaled, m)|
    ensures f < |pfds| && pfds[e] != pfds[f]
  {
    var j := PolledHead(fds, m, pfds, s, e);
    var k := PolledHead(fds, m, pfds, s, f);
    assert !Repeats(fds, j) && !Repeats(fds, k);
  }

  lemma PolledEntries(fds: seq<int>, m: nat, pfds: seq<int>, s: Scan)
    requires PollsOpen(fds, m, pfds, s)
    ensures Polled(fds, m, pfds, |Open(fds, s.signaled, m)|, s.reported)
    ensures forall e | 0 <= e < |Open(fds, s.signaled, m)| && e < |pfds| :: pfds[e] !in s.reported
  {
    var u := |Open(fds, s.signaled, m)|;
    forall e: nat | e < u && e < |pfds|
      ensures IsHead(fds, m, pfds[e]) && pfds[e] !in s.reported
    {
      var _ := PolledHead(fds, m, pfds, s, e);
    }
    forall e: nat, f: nat | e < f < u && f < |pfds|
      ensures pfds[e] != pfds[f]
    {
      PolledDiffer(fds, m, pfds, s, e, f);
    }
    forall e: nat | u <= e < |pfds|
      ensures IsHead(fds, m, pfds[e]) && (pfds[e] in s.reported || pfds[e] in pfds[..u])
    {
      PolledRepeat(fds, m, pfds, s, e);
    }
  }

  /** One round keeps the counts, and polls the open entries next. */
  lemma RoundKeeps(fds: seq<int>, m: nat, pfds: seq<int>, o: Oracle, round: nat, s: Scan)
    requires PollsOpen(fds, m, pfds, s)
    ensures var r := ScanFrom(fds, pfds, o, round, 0, s); PollsOpen(fds, m, NextPolled(fds, pfds, r), r)
  {
    PolledEntries(fds, m, pfds, s);
    ScanCounts(fds, m, pfds, |Open(fds, s.signaled, m)|, o, round, 0, s, s.reported);
    var r := ScanFrom(fds, pfds, o, round, 0, s);
    OpenTail(fds, r.signaled, m, |fds|);
  }

  lemma {:induction false} AllOpenReported(fds: seq<int>, m: nat, s: Scan)
    requires Counts(fds, m, s) && s.remaining == 0
    ensures forall i: nat | i < |fds| :: fds[i] in s.reported
  {
    forall i: nat | i < |fds|
      ensures fds[i] in s.reported
    {
      var j := i;
      if i >= m { j := HeadOf(fds, m, i); }
      if !s.signaled[j] {
        var e := OpenHolds(fds, s.signaled, m, j);
      }
    }
  }

  lemma {:induction false} RoundsReport(fds: seq<int>, m: nat, timed: bool, o: Oracle, round: nat, budget: nat,
                                        pfds: seq<int>, s: Scan)
    requires PollsOpen(fds, m, pfds, s) && |pfds| > 0
    ensures AllReported(fds, Rounds(fds, true, timed, o, round, budget, pfds, s.signaled, s.reported))
    decreases budget
  {
    var start := Scan(|pfds|, s.signaled, false, s.reported);
    if budget == 0 || o.fails(round) {
    } else if |fds| == 1 && AnyPollin(pfds, o, round) {
      assert pfds[0] == fds[0];
    } else {
      assert PollsOpen(fds, m, pfds, start);
      RoundKeeps(fds, m, pfds, o, round, start);
      var r := ScanFrom(fds, pfds, o, round, 0, start);
      if r.remaining == 0 {
        AllOpenReported(fds, m, r);
      } else {
        RoundsReport(fds, m, timed, o, round + 1, budget - 1, NextPolled(fds, pfds, r), r);
      }
    }
  }

  lemma {:induction false} AllNonNegative(fds: seq<int>)
    requires forall i | 0 <= i < |fds| :: fds[i] >= 0
    ensures NonNegative(fds) == fds
    decreases |fds|
  {
    if fds != [] { AllNonNegative(fds[..|fds| - 1]); }
  }

  lemma {:induction false} AllOpen(fds: seq<int>, signaled: seq<bool>, m: nat)
    requires |signaled| == |fds| && m <= |fds| && forall j | 0 <= j < m :: !signaled[j]
    ensures Open(fds, signaled, m) == fds[..m]
    decreases m
  {
    if m > 0 { AllOpen(fds, signaled, m - 1); }
  }

  /** When repeats come last, a wait for all that succeeds has seen POLLIN for all. */
  lemma SuccessMeansAll(fds: seq<int>, timeoutMs: int, o: Oracle, budget: nat)
    requires (forall i | 0 <= i < |fds| :: fds[i] >= 0) && RepeatsLast(fds)
    ensures AllReported(fds, Wait(fds, true, timeoutMs, o, budget))
  {
    AllNonNegative(fds);
    if fds != [] {
      var m := RepeatsSplit(fds);
      var s := Scan(|fds|, seq(|fds|, _ => false), false, {});
      AllOpen(fds, s.signaled, |fds|);
      AllOpen(fds, s.signaled, m);
      assert fds[..|fds|] == fds;
      RoundsReport(fds, m, timeoutMs > 0, o, 0, budget, fds, s);
    }
  }

  /** With distinct descriptors, the entries polled next are exactly the ones that are not
      flagged, in their order, however many the shrinking scan has missed. */
  lemma DistinctRound(fds: seq<int>, pfds: seq<int>, o: Oracle, round: nat, s: Scan)
    requires PollsOpen(fds, |fds|, pfds, s) && pfds == Open(fds, s.signaled, |fds|)
    ensures var r := ScanFrom(fds, pfds, o, round, 0, s); NextPolled(fds, pfds, r) == Open(fds, r.signaled, |fds|)
  {
    RoundKeeps(fds, |fds|, pfds, o, round, s);
    PolledEntries(fds, |fds|, pfds, s);
    ScanCounts(fds, |fds|, pfds, |pfds|, o, round, 0, s, s.reported);
  }

  /** A round shrinks the list of polled descriptors if and only if poll reports POLLIN in it. */
  lemma {:induction false} ScanProgress(fds: seq<int>, pfds: seq<int>, o: Oracle, round: nat, i: nat, s: Scan)
    requires |s.signaled| == |fds| && s.remaining <= |pfds|
    ensures ScanFrom(fds, pfds, o, round, i, s).remaining < s.remaining
       <==> exists e :: i <= e < s.remaining && Pollin(o, round, pfds[e])
    decreases |pfds| - i
  {
    if i < s.remaining && !Pollin(o, round, pfds[i]) { ScanProgress(fds, pfds, o, round, i + 1, s); }
  }

  // ---- what has been reported ----

  /** Some round before `end` has reported `fd`. */
  ghost predicate Reported(o: Oracle, fd: int, start: nat, end: nat) {
    exists round: nat :: start <= round < end && Pollin(o, round, fd)
  }

  lemma {:induction false} ScanReports(fds: seq<int>, pfds: seq<int>, o: Oracle, round: nat, i: nat, s: Scan, fd: int)
    requires |s.signaled| == |fds| && s.remaining <= |pfds| && fd in ScanFrom(fds, pfds, o, round, i, s).reported
    ensures fd in s.reported || Pollin(o, round, fd)
    decreases |pfds| - i
  {
    if i < s.remaining {
      ScanReports(fds, pfds, o, round, i + 1, if Pollin(o, round, pfds[i]) then See(fds, pfds[i], s) else s, fd);
    }
  }

  lemma {:induction false} FirstIsReported(pfds: seq<int>, o: Oracle, round: nat, fd: int)
    requires fd in FirstPollin(pfds, o, round)
    ensures Pollin(o, round, fd)
    decreases |pfds|
  {
    if !Pollin(o, round, pfds[0]) { FirstIsReported(pfds[1..], o, round, fd); }
  }

  lemma {:induction false} RoundsReportTruly(
      fds: seq<int>, waitAll: bool, timed: bool, o: Oracle, round: nat, budget: nat,
      pfds: seq<int>, signaled: seq<bool>, reported: set<int>, fd: int)
    requires |signaled| == |fds| && 0 < |pfds| <= |fds|
    requires fd in Rounds(fds, waitAll, timed, o, round, budget, pfds, signaled, reported).reported
    ensures fd in reported || Reported(o, fd, round, round + budget)
    decreases budget
  {
    if budget == 0 || o.fails(round) {
    } else if (!waitAll || |fds| == 1) && AnyPollin(pfds, o, round) {
      if fd !in reported { FirstIsReported(pfds, o, round, fd); }
    } else {
      var start := Scan(|pfds|, signaled, false, reported);
      var r := ScanFrom(fds, pfds, o, round, 0, start);
      if fd in r.reported {
        ScanReports(fds, pfds, o, round, 0, start, fd);
      } else {
        RoundsReportTruly(fds, waitAll, timed, o, round + 1, budget - 1, NextPolled(fds, pfds, r), r.signaled,
            r.reported, fd);
        var k: nat :| round + 1 <= k < round + budget && Pollin(o, k, fd);
      }
    }
  }

  /** A descriptor counts as reported only if poll did report POLLIN for it. */
  lemma ReportedByPoll(fds: seq<int>, waitAll: bool, timeoutMs: int, o: Oracle, budget: nat, fd: int)
    requires fd in Wait(fds, waitAll, timeoutMs, o, budget).reported
    ensures Reported(o, fd, 0, budget)
  {
    var polled := NonNegative(fds);
    Kept(fds);
    RoundsReportTruly(fds[..|polled|], waitAll, timeoutMs > 0, o, 0, budget, polled, seq(|polled|, _ => false), {}, fd);
  }

  // ---- and which lists are not ----

  /** An oracle for which every descriptor but `x` is always ready. */
  function AllBut(x: int): Oracle { Oracle((_: nat) => false, (_: nat, fd: int) => fd != x) }

  /** The scan flags no repeat, and reports nothing that is never ready. */
  lemma {:induction false} ScanMisses(fds: seq<int>, pfds: seq<int>, x: int, round: nat, i: nat, s: Scan, d: nat)
    requires |s.signaled| == |fds| && s.remaining <= |pfds|
    requires Repeats(fds, d) && !s.signaled[d] && x !in s.reported
    ensures var r := ScanFrom(fds, pfds, AllBut(x), round, i, s); !r.signaled[d] && x !in r.reported
    decreases |pfds| - i
  {
    if i < s.remaining {
      ScanMisses(fds, pfds, x, round, i + 1, if Pollin(AllBut(x), round, pfds[i]) then See(fds, pfds[i], s) else s, d);
    }
  }

  /** The first open entry comes no later than an open repeat, so it is not a descriptor that
      first occurs behind it. */
  lemma OpenHead(fds: seq<int>, signaled: seq<bool>, d: nat, p: nat)
    requires |signaled| == |fds| && d < p < |fds| && !signaled[d] && !Repeats(fds, p)
    ensures var u := Open(fds, signaled, |fds|); u != [] && u[0] != fds[p] && u[0] in fds
  {
    var e := OpenHolds(fds, signaled, |fds|, d);
    var j := OpenStems(fds, signaled, |fds|, 0);
    if d < j { OpenAfter(fds, signaled, d, j); }
  }

  lemma OpenAfter(fds: seq<int>, signaled: seq<bool>, d: nat, j: nat)
    requires |signaled| == |fds| && d < j <= |fds| && !signaled[d]
    ensures Open(fds, signaled, j) != []
  {
    var e := OpenHolds(fds, signaled, j, d);
  }

  /** A repeat before a descriptor's first occurrence counts the wait down to success without
      that descriptor. */
  lemma {:induction false} RoundsMiss(fds: seq<int>, d: nat, p: nat, round: nat, budget: nat, pfds: seq<int>,
                                      signaled: seq<bool>, reported: set<int>)
    requires (forall i | 0 <= i < |fds| :: fds[i] >= 0) && d < p < |fds| && Repeats(fds, d) && !Repeats(fds, p)
    requires |signaled| == |fds| && !signaled[d] && fds[p] !in reported
    requires 0 < |pfds| <= |fds| && pfds[0] >= 0 && pfds[0] != fds[p] && budget >= |pfds|
    ensures var r := Rounds(fds, true, false, AllBut(fds[p]), round, budget, pfds, signaled, reported);
      r.outcome == Success && fds[p] !in r.reported
    decreases budget
  {
    var o, s := AllBut(fds[p]), Scan(|pfds|, signaled, false, reported);
    var r := ScanFrom(fds, pfds, o, round, 0, s);
    ScanMisses(fds, pfds, fds[p], round, 0, s, d);
    assert Pollin(o, round, pfds[0]);
    assert r.remaining < |pfds|;
    OpenHead(fds, r.signaled, d, p);
    if r.remaining > 0 {
      RoundsMiss(fds, d, p, round + 1, budget - 1, NextPolled(fds, pfds, r), r.signaled, r.reported);
    }
  }

  /** Whatever the oracle answers, a wait for all of a list of descriptors returns success only
      after POLLIN for each of them, if and only if no descriptor is repeated before the first
      occurrence of another. Distinct descriptors are the case without repeats. */
  lemma SoundIff(fds: seq<int>)
    requires forall i | 0 <= i < |fds| :: fds[i] >= 0
    ensures Sound(fds) <==> RepeatsLast(fds)
  {
    if RepeatsLast(fds) {
      forall o: Oracle, timeoutMs: int, budget: nat
        ensures AllReported(fds, Wait(fds, true, timeoutMs, o, budget))
      {
        SuccessMeansAll(fds, timeoutMs, o, budget);
      }
    } else {
      var d: nat, p: nat :| d < p < |fds| && Repeats(fds, d) && !Repeats(fds, p);
      AllNonNegative(fds);
      assert fds[..|fds|] == fds;
      RoundsMiss(fds, d, p, 0, |fds|, fds, seq(|fds|, _ => false), {});
      assert !AllReported(fds, Wait(fds, true, 0, AllBut(fds[p]), |fds|));
    }
  }

  // ---- negative descriptors ----

  /** No descriptor that poll looks at occurs twice. */
  ghost predicate DistinctFds(fds: seq<int>) {
    forall i, j | 0 <= i < j < |fds| && fds[i] >= 0 :: fds[i] != fds[j]
  }

  lemma {:induction false} OpenMonotone(fds: seq<int>, a: seq<bool>, b: seq<bool>, m: nat)
    requires |a| == |fds| && |b| == |fds| && m <= |fds| && forall j | 0 <= j < m && a[j] :: b[j]
    requires Open(fds, a, m) == []
    ensures Open(fds, b, m) == []
    decreases m
  {
    if m > 0 { OpenMonotone(fds, a, b, m - 1); }
  }

  /** One flag closes at most one place. */
  lemma OpenMark(fds: seq<int>, fd: int, signaled: seq<bool>)
    requires |signaled| == |fds|
    ensures |Open(fds, Mark(fds, fd, signaled), |fds|)| >= |Open(fds, signaled, |fds|)| - 1
  {
    var j := First(fds, fd, 0);
    if j < |fds| {
      if signaled[j] {
        assert signaled[j := true] == signaled;
      } else {
        OpenLoses(fds, signaled, j, |fds|);
      }
    }
  }

  /** There are at least as many open places as the count says. */
  lemma {:induction false} ScanLeavesOpen(fds: seq<int>, pfds: seq<int>, o: Oracle, round: nat, i: nat, s: Scan)
    requires |s.signaled| == |fds| && s.remaining <= |pfds| && s.remaining <= |Open(fds, s.signaled, |fds|)|
    ensures var r := ScanFrom(fds, pfds, o, round, i, s); r.remaining <= |Open(fds, r.signaled, |fds|)|
    decreases |pfds| - i
  {
    if i < s.remaining {
      OpenMark(fds, pfds[i], s.signaled);
      ScanLeavesOpen(fds, pfds, o, round, i + 1, if Pollin(o, round, pfds[i]) then See(fds, pfds[i], s) else s);
    }
  }

  lemma {:induction false} NonNegativeTail(fds: seq<int>, m: nat)
    requires m <= |fds|
    ensures NonNegative(fds) == NonNegative(fds[..m]) + NonNegative(fds[m..])
    decreases |fds|
  {
    if m == |fds| {
      assert fds[..m] == fds && fds[m..] == [];
    } else {
      var front := fds[..|fds| - 1];
      NonNegativeTail(front, m);
      assert front[..m] == fds[..m] && front[m..] == fds[m..][..|fds[m..]| - 1];
    }
  }

  // Such a list is never reported as a success too early.

  ghost predicate Unseen(fds: seq<int>, all: set<int>, pfds: seq<int>, i: nat, s: Scan) {
    && |s.signaled| == |fds| && s.remaining <= |pfds|
    && DistinctFds(fds) && DistinctFds(pfds)
    && (forall e | i <= e < |pfds| && pfds[e] >= 0 :: pfds[e] in all && pfds[e] !in s.reported)
    && (forall j | 0 <= j < |fds| && fds[j] in s.reported :: s.signaled[j])
    && s.reported <= all && (forall fd | fd in all :: fd >= 0) && |s.reported| + s.remaining == |all|
  }

  lemma {:induction false} ScanUnseen(fds: seq<int>, all: set<int>, pfds: seq<int>, o: Oracle, round: nat, i: nat,
                                      s: Scan)
    requires Unseen(fds, all, pfds, i, s)
    ensures Unseen(fds, all, pfds, |pfds|, ScanFrom(fds, pfds, o, round, i, s))
    decreases |pfds| - i
  {
    if i < s.remaining {
      if Pollin(o, round, pfds[i]) {
        ScanUnseen(fds, all, pfds, o, round, i + 1, See(fds, pfds[i], s));
      } else {
        ScanUnseen(fds, all, pfds, o, round, i + 1, s);
      }
    }
  }

  lemma {:induction false} OpenDistinct(fds: seq<int>, signaled: seq<bool>, m: nat)
    requires |signaled| == |fds| && m <= |fds| && DistinctFds(fds)
    ensures DistinctFds(Open(fds, signaled, m))
    ensures forall e | 0 <= e < |Open(fds, signaled, m)| ::
              exists j :: 0 <= j < m && !signaled[j] && fds[j] == Open(fds, signaled, m)[e]
    decreases m
  {
    if m > 0 { OpenDistinct(fds, signaled, m - 1); }
  }

  lemma NextUnseen(fds: seq<int>, all: set<int>, pfds: seq<int>, s: Scan)
    requires Unseen(fds, all, pfds, |pfds|, s) && s.remaining <= |Open(fds, s.signaled, |fds|)|
    requires forall j | 0 <= j < |fds| && fds[j] >= 0 :: fds[j] in all
    ensures Unseen(fds, all, NextPolled(fds, pfds, s), 0, s)
  {
    OpenDistinct(fds, s.signaled, |fds|);
  }

  lemma {:induction false} RoundsReportDistinct(fds: seq<int>, all: set<int>, timed: bool, o: Oracle, round: nat,
                                                budget: nat, pfds: seq<int>, s: Scan)
    requires Unseen(fds, all, pfds, 0, s) && 0 < |pfds| == s.remaining <= |fds|
    requires s.remaining <= |Open(fds, s.signaled, |fds|)|
    requires (forall j | 0 <= j < |fds| && fds[j] >= 0 :: fds[j] in all) && |all| == |fds|
    ensures var r := Rounds(fds, true, timed, o, round, budget, pfds, s.signaled, s.reported);
      r.outcome == Success ==> r.reported == all
    decreases budget
  {
    if budget == 0 || o.fails(round) {
    } else if |fds| == 1 && AnyPollin(pfds, o, round) {
      assert s.reported + {pfds[0]} <= all;
      FullSubset(s.reported + {pfds[0]}, all);
    } else {
      var start := Scan(|pfds|, s.signaled, false, s.reported);
      ScanUnseen(fds, all, pfds, o, round, 0, start);
      ScanLeavesOpen(fds, pfds, o, round, 0, start);
      var r := ScanFrom(fds, pfds, o, round, 0, start);
      if r.remaining == 0 {
        FullSubset(r.reported, all);
      } else {
        NextUnseen(fds, all, pfds, r);
        RoundsReportDistinct(fds, all, timed, o, round + 1, budget - 1, NextPolled(fds, pfds, r), r);
      }
    }
  }

  lemma FullSubset(a: set<int>, b: set<int>)
    requires a <= b && |a| >= |b|
    ensures a == b
  {
    assert |b - a| == |b| - |a|;
  }

  function Elements(fds: seq<int>): set<int> {
    if fds == [] then {} else Elements(fds[..|fds| - 1]) + {fds[|fds| - 1]}
  }

  lemma {:induction false} ElementsIn(fds: seq<int>, fd: int)
    ensures fd in Elements(fds) <==> fd in fds
    decreases |fds|
  {
    if fds != [] {
      ElementsIn(fds[..|fds| - 1], fd);
      assert fds == fds[..|fds| - 1] + [fds[|fds| - 1]];
    }
  }

  lemma {:induction false} ElementCount(fds: seq<int>)
    requires forall i, j | 0 <= i < j < |fds| :: fds[i] != fds[j]
    ensures |Elements(fds)| == |fds|
    decreases |fds|
  {
    if fds != [] {
      var front, last := fds[..|fds| - 1], fds[|fds| - 1];
      ElementCount(front);
      ElementsIn(front, last);
    }
  }

  lemma {:induction false} KeptIn(fds: seq<int>, fd: int)
    ensures fd in NonNegative(fds) <==> fd >= 0 && fd in fds
    decreases |fds|
  {
    if fds != [] {
      KeptIn(fds[..|fds| - 1], fd);
      assert fds == fds[..|fds| - 1] + [fds[|fds| - 1]];
    }
  }

  lemma {:induction false} KeptDistinct(fds: seq<int>)
    requires DistinctFds(fds)
    ensures forall i, j | 0 <= i < j < |NonNegative(fds)| :: NonNegative(fds)[i] != NonNegative(fds)[j]
    decreases |fds|
  {
    if fds != [] {
      var front, last := fds[..|fds| - 1], fds[|fds| - 1];
      KeptDistinct(front);
      KeptIn(front, last);
    }
  }

  /** The descriptors that are polled at first. */
  lemma KeptSet(fds: seq<int>) returns (all: set<int>)
    requires DistinctFds(fds)
    ensures forall fd :: fd in all <==> fd >= 0 && fd in fds
    ensures |all| == |NonNegative(fds)| && DistinctFds(NonNegative(fds))
    ensures forall fd | fd in NonNegative(fds) :: fd in all
  {
    all := Elements(NonNegative(fds));
    KeptDistinct(fds);
    ElementCount(NonNegative(fds));
    forall fd
      ensures fd in all <==> fd >= 0 && fd in fds
      ensures fd in NonNegative(fds) <==> fd in all
    {
      ElementsIn(NonNegative(fds), fd);
      KeptIn(fds, fd);
    }
  }

  /** Negative entries do no harm to what success means: if no other descriptor repeats, a wait
      for all that succeeds has seen POLLIN for all of those. */
  lemma SuccessDespiteNegatives(fds: seq<int>, timeoutMs: int, o: Oracle, budget: nat)
    requires DistinctFds(fds) && Wait(fds, true, timeoutMs, o, budget).outcome == Success
    ensures forall i | 0 <= i < |fds| && fds[i] >= 0 :: fds[i] in Wait(fds, true, timeoutMs, o, budget).reported
  {
    var polled := NonNegative(fds);
    var all := KeptSet(fds);
    Kept(fds);
    if polled == [] {
      assert all == {};
      assert forall i | 0 <= i < |fds| && fds[i] >= 0 :: fds[i] in all;
    } else {
      var window := fds[..|polled|];
      var s := Scan(|polled|, seq(|polled|, _ => false), false, {});
      AllOpen(window, s.signaled, |polled|);
      assert Unseen(window, all, polled, 0, s);
      RoundsReportDistinct(window, all, timeoutMs > 0, o, 0, budget, polled, s);
    }
  }

  // But it may never come to a success.

  ghost predicate AlwaysReady(o: Oracle) {
    (forall round: nat :: !o.fails(round)) && (forall round: nat, fd: int :: o.ready(round, fd))
  }

  /** The places up to `g` hold no negative descriptor, and there is one at `g`. */
  ghost predicate FirstNegative(fds: seq<int>, g: nat) {
    g < |fds| && fds[g] < 0 && forall i | 0 <= i < g :: fds[i] >= 0
  }

  /** Flagging the first open place. */
  lemma {:induction false} OpenDropsFirst(fds: seq<int>, signaled: seq<bool>, j: nat, m: nat)
    requires |signaled| == |fds| && j < m <= |fds| && !signaled[j] && Open(fds, signaled, j) == []
    ensures var u := Open(fds, signaled, m); u != [] && Open(fds, signaled[j := true], m) == u[1..]
    decreases m
  {
    if j == m - 1 {
      OpenSame(fds, signaled, signaled[j := true], j);
    } else {
      OpenDropsFirst(fds, signaled, j, m - 1);
    }
  }

  /** The first open place before `g` is the one that is flagged for its descriptor. */
  lemma FrontFlagged(fds: seq<int>, g: nat, s: Scan)
    requires DistinctFds(fds) && FirstNegative(fds, g) && |s.signaled| == |fds| && s.remaining > 0
    requires Open(fds, s.signaled, g) != []
    ensures var u := Open(fds, s.signaled, g); u[0] >= 0 && Open(fds, See(fds, u[0], s).signaled, g) == u[1..]
  {
    var j := OpenStems(fds, s.signaled, g, 0);
    assert First(fds, fds[j], 0) == j;
    OpenDropsFirst(fds, s.signaled, j, g);
  }

  /** A scan that is past its first entry leaves something to wait for. */
  lemma {:induction false} ScanLeaves(fds: seq<int>, g: nat, pfds: seq<int>, o: Oracle, round: nat, i: nat, s: Scan)
    requires |s.signaled| == |fds| && 0 < s.remaining <= |pfds| && i > 0 && g <= |fds|
    requires Open(fds, s.signaled, g) == []
    ensures var r := ScanFrom(fds, pfds, o, round, i, s); r.remaining > 0 && Open(fds, r.signaled, g) == []
    decreases |pfds| - i
  {
    if i < s.remaining {
      var next := if Pollin(o, round, pfds[i]) then See(fds, pfds[i], s) else s;
      OpenMonotone(fds, s.signaled, next.signaled, g);
      ScanLeaves(fds, g, pfds, o, round, i + 1, next);
    }
  }

  /** While the descriptors before `g` are seen one by one, the count stays above their number. */
  lemma {:induction false} ScanFront(fds: seq<int>, g: nat, pfds: seq<int>, o: Oracle, round: nat, i: nat, s: Scan)
    requires AlwaysReady(o) && DistinctFds(fds) && FirstNegative(fds, g)
    requires |s.signaled| == |fds| && s.remaining <= |pfds| && i <= |pfds|
    requires var u := Open(fds, s.signaled, g); u <= pfds[i..] && |u| < s.remaining && (u == [] ==> i > 0)
    ensures var r := ScanFrom(fds, pfds, o, round, i, s); |Open(fds, r.signaled, g)| < r.remaining
    decreases |pfds| - i
  {
    var u := Open(fds, s.signaled, g);
    if i < s.remaining {
      if u == [] {
        ScanLeaves(fds, g, pfds, o, round, i, s);
      } else {
        FrontFlagged(fds, g, s);
        assert pfds[i] == pfds[i..][0] == u[0];
        assert pfds[i + 1..] == pfds[i..][1..];
        ScanFront(fds, g, pfds, o, round, i + 1, See(fds, pfds[i], s));
      }
    }
  }

  /** What every round leaves: the open descriptors before the negative one are polled first,
      they are fewer than the count, and when there are none left the round is not about to
      count its only entry. */
  ghost predicate Hanging(fds: seq<int>, g: nat, pfds: seq<int>, signaled: seq<bool>) {
    && DistinctFds(fds) && FirstNegative(fds, g) && |signaled| == |fds| && |pfds| <= |fds|
    && |pfds| <= |Open(fds, signaled, |fds|)|
    && var u := Open(fds, signaled, g);
      u <= pfds && |u| < |pfds| && (u == [] ==> pfds[0] < 0 || |pfds| > 1)
  }

  lemma RoundHangs(fds: seq<int>, g: nat, pfds: seq<int>, signaled: seq<bool>, o: Oracle, round: nat, start: Scan)
    requires AlwaysReady(o) && Hanging(fds, g, pfds, signaled)
    requires start.remaining == |pfds| && start.signaled == signaled
    ensures var r := ScanFrom(fds, pfds, o, round, 0, start);
      |Open(fds, r.signaled, g)| < r.remaining <= |Open(fds, r.signaled, |fds|)|
  {
    ScanLeavesOpen(fds, pfds, o, round, 0, start);
    if Open(fds, signaled, g) == [] {
      var next := if Pollin(o, round, pfds[0]) then See(fds, pfds[0], start) else start;
      OpenMonotone(fds, signaled, next.signaled, g);
      ScanLeaves(fds, g, pfds, o, round, 1, next);
    } else {
      assert pfds[0..] == pfds;
      ScanFront(fds, g, pfds, o, round, 0, start);
    }
  }

  /** Negative descriptors are never flagged. */
  lemma {:induction false} ScanKeepsNegative(fds: seq<int>, g: nat, pfds: seq<int>, o: Oracle, round: nat, i: nat,
                                             s: Scan)
    requires |s.signaled| == |fds| && s.remaining <= |pfds| && g < |fds| && fds[g] < 0 && !s.signaled[g]
    ensures !ScanFrom(fds, pfds, o, round, i, s).signaled[g]
    decreases |pfds| - i
  {
    if i < s.remaining {
      ScanKeepsNegative(fds, g, pfds, o, round, i + 1, if Pollin(o, round, pfds[i]) then See(fds, pfds[i], s) else s);
    }
  }

  lemma {:induction false} OpenPrefix(fds: seq<int>, signaled: seq<bool>, g: nat, m: nat)
    requires |signaled| == |fds| && g < m <= |fds| && !signaled[g]
    ensures Open(fds, signaled, g) + [fds[g]] <= Open(fds, signaled, m)
    decreases m
  {
    if g < m - 1 { OpenPrefix(fds, signaled, g, m - 1); }
  }

  lemma {:induction false} RoundsHang(fds: seq<int>, g: nat, o: Oracle, round: nat, budget: nat, pfds: seq<int>,
                                      signaled: seq<bool>, reported: set<int>)
    requires AlwaysReady(o) && Hanging(fds, g, pfds, signaled) && !signaled[g] && |fds| > 1
    ensures Rounds(fds, true, false, o, round, budget, pfds, signaled, reported).outcome == StillWaiting
    decreases budget
  {
    if budget > 0 {
      var start := Scan(|pfds|, signaled, false, reported);
      var r := ScanFrom(fds, pfds, o, round, 0, start);
      RoundHangs(fds, g, pfds, signaled, o, round, start);
      ScanKeepsNegative(fds, g, pfds, o, round, 0, start);
      OpenPrefix(fds, r.signaled, g, |fds|);
      assert !o.fails(round) && r.remaining > 0;
      RoundsHang(fds, g, o, round + 1, budget - 1, NextPolled(fds, pfds, r), r.signaled, r.reported);
    }
  }

  /** Without negative entries among the open ones, every round gets on. */
  lemma {:induction false} RoundsEnd(fds: seq<int>, o: Oracle, round: nat, budget: nat, pfds: seq<int>,
                                     signaled: seq<bool>, reported: set<int>)
    requires AlwaysReady(o) && (forall i | 0 <= i < |fds| :: fds[i] >= 0)
    requires |signaled| == |fds| && 0 < |pfds| <= |fds| && pfds[0] >= 0 && |pfds| <= |Open(fds, signaled, |fds|)|
    requires budget >= |pfds|
    ensures Rounds(fds, true, false, o, round, budget, pfds, signaled, reported).outcome == Success
    decreases budget
  {
    if !(|fds| == 1 && AnyPollin(pfds, o, round)) {
      var start := Scan(|pfds|, signaled, false, reported);
      var r := ScanFrom(fds, pfds, o, round, 0, start);
      ScanProgress(fds, pfds, o, round, 0, start);
      assert Pollin(o, round, pfds[0]);
      ScanLeavesOpen(fds, pfds, o, round, 0, start);
      if r.remaining > 0 {
        var j := OpenStems(fds, r.signaled, |fds|, 0);
        RoundsEnd(fds, o, round + 1, budget - 1, NextPolled(fds, pfds, r), r.signaled, r.reported);
      }
    }
  }

  /** Some number of rounds ends the wait for all with success. */
  ghost predicate Ends(fds: seq<int>, o: Oracle) {
    exists budget: nat :: Wait(fds, true, 0, o, budget).outcome == Success
  }

  /** At most one descriptor is polled, or the places that have flags hold no negative entry. */
  ghost predicate FlagsFit(fds: seq<int>) {
    var n := |NonNegative(fds)|;
    n <= 1 || (n <= |fds| && forall i | 0 <= i < n :: fds[i] >= 0)
  }

  lemma EndsWhenFit(fds: seq<int>, o: Oracle)
    requires AlwaysReady(o) && FlagsFit(fds)
    ensures Wait(fds, true, 0, o, |fds|).outcome == Success
  {
    var polled := NonNegative(fds);
    var n := |polled|;
    Kept(fds);
    if n == 1 {
      var i := KeptIsThere(fds, 0);
      assert Pollin(o, 0, polled[0]);
    } else if n > 1 {
      var window := fds[..n];
      NonNegativeTail(fds, n);
      AllNonNegative(window);
      AllOpen(window, seq(n, _ => false), n);
      assert window[..n] == window && polled[0] == window[0];
      RoundsEnd(window, o, 0, |fds|, polled, seq(n, _ => false), {});
    }
  }

  lemma {:induction false} KeptIsThere(fds: seq<int>, e: nat) returns (i: nat)
    requires e < |NonNegative(fds)|
    ensures i < |fds| && fds[i] >= 0 && fds[i] == NonNegative(fds)[e]
    decreases |fds|
  {
    var front := fds[..|fds| - 1];
    if e < |NonNegative(front)| { i := KeptIsThere(front, e); } else { i := |fds| - 1; }
  }

  lemma NegativePlace(fds: seq<int>, n: nat) returns (g: nat)
    requires n <= |fds| && exists i :: 0 <= i < n && fds[i] < 0
    ensures g < n && FirstNegative(fds[..n], g)
  {
    g := 0;
    while g < n && fds[g] >= 0
      invariant g <= n && forall i | 0 <= i < g :: fds[i] >= 0
    {
      g := g + 1;
    }
  }

  lemma FrontKept(fds: seq<int>, g: nat)
    requires g <= |fds| && forall i | 0 <= i < g :: fds[i] >= 0
    ensures fds[..g] <= NonNegative(fds)
  {
    NonNegativeTail(fds, g);
    AllNonNegative(fds[..g]);
  }

  lemma HangsFromTheStart(fds: seq<int>, n: nat, g: nat)
    requires DistinctFds(fds) && n == |NonNegative(fds)| <= |fds| && n > 1 && FirstNegative(fds[..n], g)
    ensures Hanging(fds[..n], g, NonNegative(fds), seq(n, _ => false))
  {
    var window, signaled := fds[..n], seq(n, _ => false);
    AllOpen(window, signaled, g);
    AllOpen(window, signaled, n);
    forall i | 0 <= i < g
      ensures fds[i] >= 0
    {
      assert window[i] >= 0;
    }
    FrontKept(fds, g);
    assert Open(window, signaled, g) == window[..g] == fds[..g];
  }

  lemma HangsWhenUnfit(fds: seq<int>, o: Oracle, budget: nat)
    requires AlwaysReady(o) && DistinctFds(fds) && !FlagsFit(fds)
    ensures Wait(fds, true, 0, o, budget).outcome == StillWaiting
  {
    var polled := NonNegative(fds);
    var n := |polled|;
    Kept(fds);
    var g := NegativePlace(fds, n);
    HangsFromTheStart(fds, n, g);
    RoundsHang(fds[..n], g, o, 0, budget, polled, seq(n, _ => false), {});
  }

  /** A negative descriptor is skipped when the poll list is first built, but counted when the
      flags are looked up and when the list is rebuilt. With every descriptor always ready and
      no timeout, a wait for all comes to an end if and only if at most one descriptor is
      polled or no negative entry stands among the first places, as many as are polled. */
  lemma EndsIff(fds: seq<int>, o: Oracle)
    requires AlwaysReady(o) && DistinctFds(fds)
    ensures Ends(fds, o) <==> FlagsFit(fds)
  {
    if FlagsFit(fds) {
      EndsWhenFit(fds, o);
    } else {
      forall budget: nat
        ensures Wait(fds, true, 0, o, budget).outcome != Success
      {
        HangsWhenUnfit(fds, o, budget);
      }
    }
  }

  lemma {:induction false} StuckOnNegative(o: Oracle, round: nat, budget: nat, reported: set<int>)
    ensures Rounds([-1, 5], true, false, o, round, budget, [-1], [false, true], reported).outcome != Success
    decreases budget
  {
    if budget > 0 && !o.fails(round) {
      var fds, s := [-1, 5], Scan(1, [false, true], false, reported);
      assert ScanFrom(fds, [-1], o, round, 0, s) == s by {
        assert ScanFrom(fds, [-1], o, round, 1, s) == s;
      }
      assert Open(fds, s.signaled, 1) == [-1];
      assert NextPolled(fds, [-1], s) == [-1];
      StuckOnNegative(o, round + 1, budget - 1, reported);
    }
  }

  /** An instance, for which less is needed: a first round that reports descriptor 5 leaves only
      -1 to poll, whatever the others do. */
  lemma NegativeHangs(o: Oracle, budget: nat)
    requires Pollin(o, 0, 5)
    ensures Wait([-1, 5, 7], true, 0, o, budget).outcome != Success
  {
    var fds := [-1, 5, 7];
    Polled57();
    assert fds[..2] == [-1, 5];
    assert seq(2, _ => false) == [false, false];
    if budget > 0 && !o.fails(0) {
      var s := Scan(2, [false, false], false, {});
      var r := See([-1, 5], 5, s);
      assert r.signaled == [false, true];
      assert ScanFrom([-1, 5], [5, 7], o, 0, 0, s) == r by {
        assert ScanFrom([-1, 5], [5, 7], o, 0, 1, r) == r;
      }
      assert Open([-1, 5], r.signaled, 1) == [-1];
      assert NextPolled([-1, 5], [5, 7], r) == [-1];
      StuckOnNegative(o, 1, budget - 1, r.reported);
    }
  }

  lemma Polled57()
    ensures NonNegative([-1, 5, 7]) == [5, 7]
  {
    assert [-1, 5, 7][..2] == [-1, 5] && [-1, 5][..1] == [-1];
    assert NonNegative([-1]) == [];
    assert NonNegative([-1, 5]) == [5];
  }

  // ---- the code ----

  method WaitForEvents(fds: array<int>, waitAll: bool, timeoutMs: int, o: Oracle, budget: nat)
    returns (outcome: Outcome)
    ensures outcome == Wait(fds[..], waitAll, timeoutMs, o, budget).outcome
  {
    var timeout := if timeoutMs <= 0 then -1 else timeoutMs;
    var pfds, signaled := new int[fds.Length](_ => 0), new bool[fds.Length](_ => false);
    var numFds := Compact(fds, pfds);
    if numFds == 0 { return Success; }
    assert signaled[..numFds] == seq(numFds, _ => false);
    outcome := RunRounds(fds, pfds, signaled, numFds, waitAll, timeout > 0, o, budget);
  }

  /** The do-while loop. */
  method RunRounds(fds: array<int>, pfds: array<int>, signaled: array<bool>, numFds: nat, waitAll: bool, timed: bool,
                   o: Oracle, budget: nat) returns (outcome: Outcome)
    requires 0 < numFds <= fds.Length && pfds.Length == fds.Length && signaled.Length == fds.Length && pfds != fds
    modifies pfds, signaled
    ensures outcome == Rounds(fds[..numFds], waitAll, timed, o, 0, budget, old(pfds[..numFds]),
                              old(signaled[..numFds]), {}).outcome
  {
    var remaining := numFds;
    ghost var window, reported := fds[..numFds], {};
    ghost var total := Rounds(window, waitAll, timed, o, 0, budget, pfds[..numFds], signaled[..numFds], {});
    for round := 0 to budget
      invariant 0 < remaining <= numFds
      invariant total == Rounds(window, waitAll, timed, o, round, budget - round, pfds[..remaining],
          signaled[..numFds], reported)
    {
      outcome, remaining, reported := OneRound(fds, pfds, signaled, numFds, remaining, waitAll, timed, o, round,
          reported, budget - round);
      if outcome != StillWaiting { return; }
    }
    return StillWaiting;
  }

  /** The body of the do-while loop; `StillWaiting` is its next round. */
  method OneRound(fds: array<int>, pfds: array<int>, signaled: array<bool>, numFds: nat, remaining0: nat, waitAll: bool,
                  timed: bool, o: Oracle, round: nat, ghost reported0: set<int>, ghost left: nat)
    returns (outcome: Outcome, remaining: nat, ghost reported: set<int>)
    requires numFds <= fds.Length && pfds.Length == fds.Length && signaled.Length == fds.Length && pfds != fds
    requires 0 < remaining0 <= numFds && left > 0
    modifies pfds, signaled
    ensures var before := Rounds(fds[..numFds], waitAll, timed, o, round, left, old(pfds[..remaining0]),
        old(signaled[..numFds]), reported0);
      if outcome == StillWaiting then
        0 < remaining <= numFds
        && before == Rounds(fds[..numFds], waitAll, timed, o, round + 1, left - 1, pfds[..remaining],
            signaled[..numFds], reported)
      else before.outcome == outcome
  {
    remaining, reported := remaining0, reported0;
    if o.fails(round) { return Error, remaining, reported; }
    ghost var window, polled, before := fds[..numFds], pfds[..remaining0], pfds[..];
    var early, any;
    early, remaining, any, reported := ScanRound(fds, pfds, signaled, numFds, remaining0, waitAll, o, round, reported0);
    if early { return Success, remaining, reported; }
    if !any && timed { return Timeout, remaining, reported; }
    Rebuild(fds, pfds, signaled, numFds);
    if remaining == 0 { return Success, remaining, reported; }
    RebuiltPolled(window, before, pfds[..], polled, Scan(remaining, signaled[..numFds], any, reported));
    return StillWaiting, remaining, reported;
  }

  /** What the rebuilt array holds at its front. */
  lemma RebuiltPolled(fds: seq<int>, before: seq<int>, after: seq<int>, pfds: seq<int>, s: Scan)
    requires |s.signaled| == |fds| <= |before| && pfds <= before && s.remaining <= |pfds|
    requires var u := Open(fds, s.signaled, |fds|); after == u + before[|u|..]
    ensures |after| == |before| && after[..s.remaining] == NextPolled(fds, pfds, s)
  {}

  /** The first loop. */
  method Compact(fds: array<int>, pfds: array<int>) returns (j: nat)
    requires pfds.Length == fds.Length && pfds != fds
    modifies pfds
    ensures j <= fds.Length && pfds[..j] == NonNegative(fds[..])
  {
    j := 0;
    for i := 0 to fds.Length
      invariant j <= i && pfds[..j] == NonNegative(fds[..i])
    {
      assert fds[..i + 1][..i] == fds[..i];
      if fds[i] >= 0 {
        pfds[j] := fds[i];
        j := j + 1;
      }
    }
    assert fds[..fds.Length] == fds[..];
  }

  /** The scan of a round: its bound is the count it decrements. */
  method ScanRound(fds: array<int>, pfds: array<int>, signaled: array<bool>, numFds: nat, remaining0: nat,
                   waitAll: bool, o: Oracle, round: nat, ghost reported0: set<int>)
    returns (early: bool, remaining: nat, any: bool, ghost reported: set<int>)
    requires numFds <= fds.Length && pfds.Length == fds.Length && signaled.Length == fds.Length && remaining0 <= numFds
    modifies signaled
    ensures early <==> (!waitAll || numFds == 1) && AnyPollin(pfds[..remaining0], o, round)
    ensures !early ==>
              ScanFrom(fds[..numFds], pfds[..remaining0], o, round, 0,
                  Scan(remaining0, old(signaled[..numFds]), false, reported0))
              == Scan(remaining, signaled[..numFds], any, reported)
  {
    ghost var window, polled, start := fds[..numFds], pfds[..remaining0],
        Scan(remaining0, signaled[..numFds], false, reported0);
    remaining, any, reported := remaining0, false, reported0;
    var i := 0;
    while i < remaining
      invariant 0 <= i && remaining <= remaining0
      invariant ScanFrom(window, polled, o, round, 0, start)
             == ScanFrom(window, polled, o, round, i, Scan(remaining, signaled[..numFds], any, reported))
      invariant !waitAll || numFds == 1 ==>
                  remaining == remaining0 && forall e | 0 <= e < i && e < remaining0 :: !Pollin(o, round, polled[e])
      decreases remaining0 - i
    {
      if Pollin(o, round, pfds[i]) {
        assert Pollin(o, round, polled[i]);
        if !waitAll || numFds == 1 { return true, remaining, any, reported; }
        remaining := remaining - 1;
        var found := Flag(fds, pfds[i], signaled, numFds);
        any := any || found;
        reported := reported + {pfds[i]};
      }
      i := i + 1;
    }
    early := false;
  }

  /** The search for the flag of a reported descriptor. */
  method Flag(fds: array<int>, fd: int, signaled: array<bool>, numFds: nat) returns (found: bool)
    requires numFds <= fds.Length && signaled.Length == fds.Length
    modifies signaled
    ensures signaled[..numFds] == Mark(fds[..numFds], fd, old(signaled[..numFds]))
    ensures found <==> First(fds[..numFds], fd, 0) < numFds
  {
    var j := 0;
    while j < numFds
      invariant 0 <= j <= numFds && First(fds[..numFds], fd, 0) == First(fds[..numFds], fd, j)
      invariant signaled[..] == old(signaled[..])
    {
      if fds[j] == fd {
        signaled[j] := true;
        return true;
      }
      j := j + 1;
    }
    return false;
  }

  /** The last loop of a round. */
  method Rebuild(fds: array<int>, pfds: array<int>, signaled: array<bool>, numFds: nat)
    requires numFds <= fds.Length && pfds.Length == fds.Length && signaled.Length == fds.Length && pfds != fds
    modifies pfds
    ensures var u := Open(fds[..numFds], signaled[..numFds], numFds); pfds[..] == u + old(pfds[..])[|u|..]
  {
    ghost var window, flags := fds[..numFds], signaled[..numFds];
    var j := 0;
    for i := 0 to numFds
      invariant 0 <= j <= i && pfds[..j] == Open(window, flags, i)
      invariant forall k | j <= k < pfds.Length :: pfds[k] == old(pfds[k])
    {
      if !signaled[i] {
        pfds[j] := fds[i];
        j := j + 1;
      }
    }
    assert pfds[j..] == old(pfds[..])[j..];
  }
}
