/** The attempt log that bounds how often one source may register or fail to sign in. */
module Throttle {

  const HOUR := 3_600_000

  /** REGISTRATION_ATTEMPT_RETENTION_MS: attempts are kept for two windows. */
  const RETENTION := 2 * HOUR

  datatype Row = Row(source: string, at: int)

  /** SELECT COUNT(*) ... WHERE source = ? AND created_at > ?. */
  function CountSince(rows: seq<Row>, source: string, since: int): nat {
    if rows == [] then 0
    else
      var last := rows[|rows| - 1];
      CountSince(rows[..|rows| - 1], source, since) + if last.source == source && last.at > since then 1 else 0
  }

  /** DELETE ... WHERE created_at <= ?: the rows that stay. */
  function Kept(rows: seq<Row>, before: int): seq<Row> {
    if rows == [] then []
    else Kept(rows[..|rows| - 1], before) + if rows[|rows| - 1].at <= before then [] else [rows[|rows| - 1]]
  }

  // --- the table --------------------------------------------------------------------------------------

  class AttemptTable {
    var rows: seq<Row>

    /** Every attempt ever recorded, the latest time pruned away, and the latest time seen. */
    ghost var forever: seq<Row>
    ghost var cutoff: int
    ghost var latest: int

    ghost predicate Valid()
      reads this
    {
      rows == Kept(forever, cutoff) && cutoff + RETENTION <= latest
    }

    constructor (ghost now: int)
      ensures Valid() && rows == [] && forever == [] && latest == now
    {
      rows, forever := [], [];
      cutoff, latest := now - RETENTION, now;
    }

    method Record(source: string, at: int)
      requires Valid() && latest <= at
      modifies this
      ensures Valid() && forever == old(forever) + [Row(source, at)] && latest == at
    {
      rows := rows + [Row(source, at)];
      KeptAppend(forever, Row(source, at), cutoff);
      forever := forever + [Row(source, at)];
      latest := at;
    }

    method Prune(before: int)
      modifies this`rows
      ensures rows == Kept(old(rows), before)
    {
      var kept: seq<Row> := [];
      var i := 0;
      while i < |rows|
        invariant i <= |rows| && rows == old(rows)
        invariant kept == Kept(rows[..i], before)
      {
        assert rows[..i + 1][..i] == rows[..i];
        if rows[i].at > before {
          kept := kept + [rows[i]];
        }
        i := i + 1;
      }
      assert rows[..i] == rows;
      rows := kept;
    }

    /** Forget what is older than the retention. */
    method Forget(now: int)
      requires Valid() && latest <= now
      modifies this
      ensures Valid() && forever == old(forever) && latest == now && cutoff == now - RETENTION
    {
      ghost var all, before := forever, cutoff;
      Prune(now - RETENTION);
      KeptTwice(all, before, now - RETENTION);
      cutoff, latest := now - RETENTION, now;
    }

    /** Prune first, then count: the answer is the one a table that never forgets would give. */
    method CheckThrottle(source: string, now: int, windowMs: int, maxPerWindow: int) returns (allowed: bool)
      requires Valid() && latest <= now && windowMs <= RETENTION
      modifies this
      ensures Valid() && forever == old(forever) && latest == now
      ensures allowed <==> CountSince(forever, source, now - windowMs) < maxPerWindow
    {
      Forget(now);
      CountIgnoresPruning(forever, cutoff, source, now - windowMs);
      var recent := CountSince(rows, source, now - windowMs);
      allowed := recent < maxPerWindow;
    }

    /** One request's whole attempt, whichever route it came by: check, then record what its kind records. */
    method Try(a: Attempt, windowMs: int, ghost earlier: seq<Attempt>) returns (admitted: bool)
      requires Valid() && latest <= a.at && windowMs <= RETENTION
      requires forever == RowsAfter(windowMs, earlier)
      modifies this
      ensures Valid() && latest == a.at
      ensures admitted <==> Admits(RowsAfter(windowMs, earlier), a, windowMs)
      ensures forever == RowsAfter(windowMs, earlier + [a])
    {
      admitted := CheckThrottle(a.source, a.at, windowMs, a.most);
      assert (earlier + [a])[..|earlier|] == earlier;
      if a.kind == Registration || (admitted && a.fails) {
        Record(a.source, a.at);
      }
    }
  }

  lemma KeptAppend(rows: seq<Row>, r: Row, before: int)
    ensures Kept(rows + [r], before) == Kept(rows, before) + if r.at <= before then [] else [r]
  {
    assert (rows + [r])[..|rows|] == rows;
  }

  lemma {:induction false} KeptTwice(rows: seq<Row>, b: int, c: int)
    ensures Kept(Kept(rows, b), c) == Kept(rows, if b < c then c else b)
  {
    if rows != [] {
      var front, last := rows[..|rows| - 1], rows[|rows| - 1];
      KeptTwice(front, b, c);
      if last.at > b {
        KeptAppend(Kept(front, b), last, c);
      } else {
        assert Kept(rows, b) == Kept(front, b);
      }
    }
  }

  /** Forgetting attempts no later than the window's start never changes the window's count, for any source. */
  lemma {:induction false} CountIgnoresPruning(rows: seq<Row>, before: int, source: string, since: int)
    requires before <= since
    ensures CountSince(Kept(rows, before), source, since) == CountSince(rows, source, since)
  {
    if rows != [] {
      var front, last := rows[..|rows| - 1], rows[|rows| - 1];
      CountIgnoresPruning(front, before, source, since);
      if last.at > before {
        assert (Kept(front, before) + [last])[..|Kept(front, before)|] == Kept(front, before);
      } else {
        assert Kept(rows, before) == Kept(front, before);
      }
    }
  }

  // --- runs of attempts on one table, checked and recorded one at a time ------------------------------

  /** Registrations and activations record every attempt; sign-ins record only the admitted ones that fail. */
  datatype Kind = Registration | SignIn

  /** An attempt brings its own source, way of recording and limit: several routes share the table. */
  datatype Attempt = Attempt(source: string, at: int, fails: bool, kind: Kind, most: nat)

  predicate Records(a: Attempt, admitted: bool) {
    a.kind == Registration || (admitted && a.fails)
  }

  /** The verdict on an attempt, given the rows recorded before it. */
  predicate Admits(before: seq<Row>, a: Attempt, windowMs: int) {
    CountSince(before, a.source, a.at - windowMs) < a.most
  }

  function RowsAfter(windowMs: int, attempts: seq<Attempt>): seq<Row> {
    if attempts == [] then []
    else
      var last := attempts[|attempts| - 1];
      var before := RowsAfter(windowMs, attempts[..|attempts| - 1]);
      before + if Records(last, Admits(before, last, windowMs)) then [Row(last.source, last.at)] else []
  }

  lemma CountAppend(rows: seq<Row>, r: Row, source: string, since: int)
    ensures CountSince(rows + [r], source, since) ==
            CountSince(rows, source, since) + if r.source == source && r.at > since then 1 else 0
  {
    assert (rows + [r])[..|rows|] == rows;
  }

  /** How a last attempt changes a source's count. */
  lemma CountStep(windowMs: int, attempts: seq<Attempt>, last: Attempt, source: string, since: int)
    ensures var before := RowsAfter(windowMs, attempts);
            CountSince(RowsAfter(windowMs, attempts + [last]), source, since) ==
            CountSince(before, source, since)
            + if last.source == source && last.at > since && Records(last, Admits(before, last, windowMs)) then 1 else 0
  {
    var before := RowsAfter(windowMs, attempts);
    assert (attempts + [last])[..|attempts|] == attempts;
    assert before + [] == before;
    CountAppend(before, Row(last.source, last.at), source, since);
  }

  // --- a source is judged by its own attempts ------------------------------------------------------------

  /** The attempts of one source. */
  function Own(attempts: seq<Attempt>, source: string): seq<Attempt> {
    if attempts == [] then []
    else
      var last := attempts[|attempts| - 1];
      Own(attempts[..|attempts| - 1], source) + if last.source == source then [last] else []
  }

  /** On the shared table a source's count is the one a table of its own would give. */
  lemma {:induction false} OwnCount(windowMs: int, attempts: seq<Attempt>, source: string, since: int)
    ensures CountSince(RowsAfter(windowMs, attempts), source, since) ==
            CountSince(RowsAfter(windowMs, Own(attempts, source)), source, since)
  {
    if attempts != [] {
      var front, last := attempts[..|attempts| - 1], attempts[|attempts| - 1];
      assert attempts == front + [last];
      OwnCount(windowMs, front, source, since);
      CountStep(windowMs, front, last, source, since);
      if last.source == source {
        assert Own(attempts, source) == Own(front, source) + [last];
        OwnCount(windowMs, front, source, last.at - windowMs);
        assert Admits(RowsAfter(windowMs, front), last, windowMs) ==
               Admits(RowsAfter(windowMs, Own(front, source)), last, windowMs);
        CountStep(windowMs, Own(front, source), last, source, since);
      } else {
        assert Own(attempts, source) == Own(front, source);
      }
    }
  }

  /** So its verdicts are those of a table of its own, whatever other sources try in between. */
  lemma OwnVerdict(windowMs: int, attempts: seq<Attempt>, a: Attempt)
    ensures Admits(RowsAfter(windowMs, attempts), a, windowMs) <==>
            Admits(RowsAfter(windowMs, Own(attempts, a.source)), a, windowMs)
  {
    OwnCount(windowMs, attempts, a.source, a.at - windowMs);
  }

  // --- how many a window holds ----------------------------------------------------------------------------

  /** The attempts of one source, later than a and no later than a + windowMs, that were admitted and recorded. */
  function AdmittedIn(windowMs: int, attempts: seq<Attempt>, source: string, a: int): nat {
    if attempts == [] then 0
    else
      var last := attempts[|attempts| - 1];
      var before := RowsAfter(windowMs, attempts[..|attempts| - 1]);
      AdmittedIn(windowMs, attempts[..|attempts| - 1], source, a)
      + if last.source == source && a < last.at <= a + windowMs && Admits(before, last, windowMs)
           && Records(last, true) then 1 else 0
  }

  lemma {:induction false} CountMonotone(rows: seq<Row>, source: string, early: int, late: int)
    requires early <= late
    ensures CountSince(rows, source, late) <= CountSince(rows, source, early)
  {
    if rows != [] {
      CountMonotone(rows[..|rows| - 1], source, early, late);
    }
  }

  lemma {:induction false} AdmittedAreRecorded(windowMs: int, attempts: seq<Attempt>, source: string, a: int)
    ensures AdmittedIn(windowMs, attempts, source, a) <= CountSince(RowsAfter(windowMs, attempts), source, a)
  {
    if attempts != [] {
      var front, last := attempts[..|attempts| - 1], attempts[|attempts| - 1];
      assert attempts == front + [last];
      AdmittedAreRecorded(windowMs, front, source, a);
      CountStep(windowMs, front, last, source, a);
    }
  }

  /** No attempt of a source is judged by a higher limit than this. */
  predicate LimitedTo(attempts: seq<Attempt>, source: string, most: nat) {
    forall i :: 0 <= i < |attempts| && attempts[i].source == source ==> attempts[i].most <= most
  }

  /**
   * Every stretch of one window's length, wherever it starts and whatever else shares the table, holds at most
   * `most` attempts of a source that were admitted and recorded.
   */
  lemma {:induction false} WindowBound(windowMs: int, most: nat, attempts: seq<Attempt>, source: string, a: int)
    requires LimitedTo(attempts, source, most)
    ensures AdmittedIn(windowMs, attempts, source, a) <= most
  {
    if attempts != [] {
      var front, last := attempts[..|attempts| - 1], attempts[|attempts| - 1];
      WindowBound(windowMs, most, front, source, a);
      if last.source == source && last.at <= a + windowMs {
        AdmittedAreRecorded(windowMs, front, source, a);
        CountMonotone(RowsAfter(windowMs, front), source, last.at - windowMs, a);
      }
    }
  }

  // --- refusals count, successes do not ----------------------------------------------------------------------

  /** How many attempts of a source, whatever became of them, are later than a moment. */
  function Tries(attempts: seq<Attempt>, source: string, since: int): nat {
    if attempts == [] then 0
    else
      var last := attempts[|attempts| - 1];
      Tries(attempts[..|attempts| - 1], source, since) + if last.source == source && last.at > since then 1 else 0
  }

  /** Every attempt of the source is one that is always recorded. */
  predicate AlwaysRecorded(attempts: seq<Attempt>, source: string) {
    forall i :: 0 <= i < |attempts| && attempts[i].source == source ==> attempts[i].kind == Registration
  }

  lemma {:induction false} EveryTryIsRecorded(windowMs: int, attempts: seq<Attempt>, source: string, since: int)
    requires AlwaysRecorded(attempts, source)
    ensures CountSince(RowsAfter(windowMs, attempts), source, since) == Tries(attempts, source, since)
  {
    if attempts != [] {
      var front, last := attempts[..|attempts| - 1], attempts[|attempts| - 1];
      assert attempts == front + [last];
      EveryTryIsRecorded(windowMs, front, source, since);
      CountStep(windowMs, front, last, source, since);
    }
  }

  /**
   * On the shared table a registration is admitted exactly when its source has tried fewer than the allowed number
   * of times in the window before it, refusals included: sitting at the limit and trying on keeps a source out.
   */
  lemma RefusalsCount(windowMs: int, attempts: seq<Attempt>, a: Attempt)
    requires AlwaysRecorded(attempts, a.source)
    ensures Admits(RowsAfter(windowMs, attempts), a, windowMs) <==> Tries(attempts, a.source, a.at - windowMs) < a.most
  {
    EveryTryIsRecorded(windowMs, attempts, a.source, a.at - windowMs);
  }

  lemma {:induction false} OwnTries(attempts: seq<Attempt>, source: string, since: int)
    ensures Tries(attempts, source, since) == Tries(Own(attempts, source), source, since)
  {
    if attempts != [] {
      var front, last := attempts[..|attempts| - 1], attempts[|attempts| - 1];
      OwnTries(front, source, since);
      if last.source == source {
        assert (Own(front, source) + [last])[..|Own(front, source)|] == Own(front, source);
      } else {
        assert Own(attempts, source) == Own(front, source);
      }
    }
  }

  /** One source's attempts, in order, never more than `most` apart within a window. */
  predicate Steady(attempts: seq<Attempt>, windowMs: int, most: nat) {
    && (forall i :: most <= i < |attempts| ==> attempts[i].at - windowMs < attempts[i - most].at)
    && (forall i, j :: 0 <= i < j < |attempts| ==> attempts[i].at <= attempts[j].at)
  }

  lemma {:induction false} RecentTries(attempts: seq<Attempt>, source: string, k: nat, since: int)
    requires k <= |attempts|
    requires forall i :: |attempts| - k <= i < |attempts| ==> attempts[i].source == source && attempts[i].at > since
    ensures Tries(attempts, source, since) >= k
    decreases k
  {
    if k > 0 {
      var front := attempts[..|attempts| - 1];
      assert forall i :: |front| - (k - 1) <= i < |front| ==> front[i] == attempts[i];
      RecentTries(front, source, k - 1, since);
    }
  }

  lemma {:induction false} OwnIsOwn(attempts: seq<Attempt>, source: string)
    ensures forall i :: 0 <= i < |Own(attempts, source)| ==> Own(attempts, source)[i].source == source
  {
    if attempts != [] {
      OwnIsOwn(attempts[..|attempts| - 1], source);
    }
  }

  lemma SteadyTries(own: seq<Attempt>, last: Attempt, windowMs: int)
    requires Steady(own + [last], windowMs, last.most) && |own| >= last.most
    requires forall i :: 0 <= i < |own| ==> own[i].source == last.source
    ensures Tries(own, last.source, last.at - windowMs) >= last.most
  {
    var all, n, first := own + [last], |own|, |own| - last.most;
    assert all[n] == last && all[n].at - windowMs < all[first].at;
    forall i | first <= i < n
      ensures own[i].at > last.at - windowMs
    {
      assert all[i] == own[i] && all[first].at <= all[i].at;
    }
    RecentTries(own, last.source, last.most, last.at - windowMs);
  }

  /** A source that keeps up more than the allowed pace is refused from then on, whoever else tries in between. */
  lemma HammeringStaysRefused(windowMs: int, attempts: seq<Attempt>, last: Attempt)
    requires AlwaysRecorded(attempts, last.source)
    requires Steady(Own(attempts, last.source) + [last], windowMs, last.most) && |Own(attempts, last.source)| >= last.most
    ensures !Admits(RowsAfter(windowMs, attempts), last, windowMs)
  {
    OwnIsOwn(attempts, last.source);
    SteadyTries(Own(attempts, last.source), last, windowMs);
    OwnTries(attempts, last.source, last.at - windowMs);
    RefusalsCount(windowMs, attempts, last);
  }

  /** All but the sign-ins that succeed. */
  function Costly(attempts: seq<Attempt>): seq<Attempt> {
    if attempts == [] then []
    else
      var last := attempts[|attempts| - 1];
      Costly(attempts[..|attempts| - 1]) + if last.kind == SignIn && !last.fails then [] else [last]
  }

  /** Successful sign-ins, however many, change no later answer on the shared table: it is the one without them. */
  lemma {:induction false} SuccessesAreFree(windowMs: int, attempts: seq<Attempt>)
    ensures RowsAfter(windowMs, attempts) == RowsAfter(windowMs, Costly(attempts))
  {
    if attempts != [] {
      var front, last := attempts[..|attempts| - 1], attempts[|attempts| - 1];
      SuccessesAreFree(windowMs, front);
      if last.kind == SignIn && !last.fails {
        assert Costly(attempts) == Costly(front);
      } else {
        assert Costly(attempts)[..|Costly(attempts)| - 1] == Costly(front);
      }
    }
  }

  // --- the three routes ------------------------------------------------------------------------------------------

  datatype Route = Register | Activate | SignInAt

  const REGISTRATION_MAX := 6
  const SIGN_IN_FAILURES_MAX := 30

  /** A request: where it came in, the digest of who sent it, and whether it would fail. */
  datatype Request = Request(route: Route, digest: string, at: int, fails: bool)

  function SourceOf(route: Route, digest: string): string {
    match route
    case Register => digest
    case Activate => "activate:" + digest
    case SignInAt => "login:" + digest
  }

  function MostFor(route: Route): nat {
    if route == SignInAt then SIGN_IN_FAILURES_MAX else REGISTRATION_MAX
  }

  function AttemptOf(r: Request): Attempt {
    Attempt(SourceOf(r.route, r.digest), r.at, r.fails, if r.route == SignInAt then SignIn else Registration, MostFor(r.route))
  }

  function AttemptsOf(rs: seq<Request>): (attempts: seq<Attempt>)
    ensures |attempts| == |rs| && forall i :: 0 <= i < |rs| ==> attempts[i] == AttemptOf(rs[i])
  {
    seq(|rs|, i requires 0 <= i < |rs| => AttemptOf(rs[i]))
  }

  predicate NoColon(s: string) {
    forall i :: 0 <= i < |s| ==> s[i] != ':'
  }

  predicate Digests(rs: seq<Request>) {
    forall i :: 0 <= i < |rs| ==> NoColon(rs[i].digest)
  }

  /** Two requests count together exactly when they came by the same route from the same digest. */
  lemma PrefixesKeepSourcesApart(r: Route, s: string, q: Route, t: string)
    requires NoColon(s) && NoColon(t)
    ensures SourceOf(r, s) == SourceOf(q, t) <==> r == q && s == t
  {
    assert ("login:" + s)[5] == ':' && ("activate:" + s)[8] == ':';
    assert ("login:" + t)[5] == ':' && ("activate:" + t)[8] == ':';
    assert ("login:" + s)[0] != ("activate:" + t)[0] && ("login:" + t)[0] != ("activate:" + s)[0];
    assert ("login:" + s)[6..] == s && ("login:" + t)[6..] == t;
    assert ("activate:" + s)[9..] == s && ("activate:" + t)[9..] == t;
  }

  /** The requests that came by one route from one digest. */
  function SameBudget(rs: seq<Request>, route: Route, digest: string): seq<Request> {
    if rs == [] then []
    else
      var last := rs[|rs| - 1];
      SameBudget(rs[..|rs| - 1], route, digest) + if last.route == route && last.digest == digest then [last] else []
  }

  lemma OwnStep(attempts: seq<Attempt>, a: Attempt, source: string)
    ensures Own(attempts + [a], source) == Own(attempts, source) + if a.source == source then [a] else []
  {
    assert (attempts + [a])[..|attempts|] == attempts;
  }

  lemma AttemptsSplit(rs: seq<Request>, r: Request)
    ensures AttemptsOf(rs + [r]) == AttemptsOf(rs) + [AttemptOf(r)]
  {
  }

  lemma {:induction false} SameBudgetIsOwn(rs: seq<Request>, route: Route, digest: string)
    requires Digests(rs) && NoColon(digest)
    ensures Own(AttemptsOf(rs), SourceOf(route, digest)) == AttemptsOf(SameBudget(rs, route, digest))
  {
    if rs != [] {
      var front, last := rs[..|rs| - 1], rs[|rs| - 1];
      var source := SourceOf(route, digest);
      SameBudgetIsOwn(front, route, digest);
      PrefixesKeepSourcesApart(last.route, last.digest, route, digest);
      OwnAfter(rs, source);
      AttemptsSplit(SameBudget(front, route, digest), last);
    }
  }

  lemma OwnAfter(rs: seq<Request>, source: string)
    requires rs != []
    ensures var front, last := rs[..|rs| - 1], AttemptOf(rs[|rs| - 1]);
            Own(AttemptsOf(rs), source) == Own(AttemptsOf(front), source) + if last.source == source then [last] else []
  {
    var front, last := rs[..|rs| - 1], rs[|rs| - 1];
    assert rs == front + [last];
    AttemptsSplit(front, last);
    OwnStep(AttemptsOf(front), AttemptOf(last), source);
  }

  /**
   * The routes never spend each other's budget: a request's verdict on the table all three share is the one it
   * would get had only its own route and digest ever been seen.
   */
  lemma BudgetsAreSeparate(rs: seq<Request>, r: Request)
    requires Digests(rs + [r])
    ensures Admits(RowsAfter(HOUR, AttemptsOf(rs)), AttemptOf(r), HOUR) <==>
            Admits(RowsAfter(HOUR, AttemptsOf(SameBudget(rs, r.route, r.digest))), AttemptOf(r), HOUR)
  {
    var all := rs + [r];
    assert forall i :: 0 <= i < |rs| ==> all[i] == rs[i];
    assert all[|rs|] == r;
    SameBudgetIsOwn(rs, r.route, r.digest);
    OwnVerdict(HOUR, AttemptsOf(rs), AttemptOf(r));
  }

  /** In any hour, on that table: at most six registrations or activations of a digest, or thirty failed sign-ins. */
  lemma RoutesAreBounded(rs: seq<Request>, route: Route, digest: string, a: int)
    requires Digests(rs) && NoColon(digest)
    ensures AdmittedIn(3_600_000, AttemptsOf(rs), SourceOf(route, digest), a) <= if route == SignInAt then 30 else 6
  {
    forall i | 0 <= i < |rs| && AttemptsOf(rs)[i].source == SourceOf(route, digest)
      ensures AttemptsOf(rs)[i].most <= MostFor(route)
    {
      PrefixesKeepSourcesApart(rs[i].route, rs[i].digest, route, digest);
    }
    WindowBound(HOUR, MostFor(route), AttemptsOf(rs), SourceOf(route, digest), a);
  }

  /** Sign-ins count by their admitted failures alone. */
  lemma {:induction false} FailuresAreTheCount(windowMs: int, attempts: seq<Attempt>, source: string, a: int)
    requires forall i :: 0 <= i < |attempts| && attempts[i].source == source ==>
               attempts[i].kind == SignIn && attempts[i].at <= a + windowMs
    ensures CountSince(RowsAfter(windowMs, attempts), source, a) == AdmittedIn(windowMs, attempts, source, a)
  {
    if attempts != [] {
      var front, last := attempts[..|attempts| - 1], attempts[|attempts| - 1];
      assert attempts == front + [last];
      FailuresAreTheCount(windowMs, front, source, a);
      CountStep(windowMs, front, last, source, a);
    }
  }

  lemma OneRoute(rs: seq<Request>, route: Route, digest: string)
    requires Digests(rs) && NoColon(digest)
    ensures forall i :: 0 <= i < |rs| && AttemptsOf(rs)[i].source == SourceOf(route, digest) ==>
              rs[i].route == route && rs[i].digest == digest
  {
    forall i | 0 <= i < |rs| && AttemptsOf(rs)[i].source == SourceOf(route, digest)
      ensures rs[i].route == route && rs[i].digest == digest
    {
      PrefixesKeepSourcesApart(rs[i].route, rs[i].digest, route, digest);
    }
  }

  /**
   * A registration or activation is let in exactly when its digest tried that route fewer than six times in the hour
   * before, and a sign-in exactly when fewer than thirty of its digest's were let in and failed.
   */
  lemma RoutesExactly(rs: seq<Request>, r: Request)
    requires Digests(rs) && NoColon(r.digest) && forall i :: 0 <= i < |rs| ==> rs[i].at <= r.at
    ensures var attempts, source := AttemptsOf(rs), SourceOf(r.route, r.digest);
            Admits(RowsAfter(3_600_000, attempts), AttemptOf(r), 3_600_000) <==>
            if r.route == SignInAt then AdmittedIn(3_600_000, attempts, source, r.at - 3_600_000) < 30
            else Tries(attempts, source, r.at - 3_600_000) < 6
  {
    OneRoute(rs, r.route, r.digest);
    if r.route == SignInAt {
      FailuresAreTheCount(HOUR, AttemptsOf(rs), SourceOf(r.route, r.digest), r.at - HOUR);
    } else {
      RefusalsCount(HOUR, AttemptsOf(rs), AttemptOf(r));
    }
  }
}
