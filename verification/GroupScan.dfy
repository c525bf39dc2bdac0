/**
  When the two-pass log scan brings a device up to date.  A page is described
  by `pos`: the commit that leads to epoch e + 1 + j stands at row pos[j].
 */
module GroupScan {
  import opened Common
  import opened GroupSync

  // ---------------------------------------------------------------------------
  // Pages that hold one commit for each epoch e + 1 .. e + |pos|
  // ---------------------------------------------------------------------------

  predicate CommitFor(env: Envelope, epoch: nat) {
    env.contentType == Commit && env.wire.CommitWire? && env.wire.base + 1 == epoch && env.epoch == epoch
  }

  /** A row the scan opens, unless its epoch is already behind. */
  predicate Candidate(env: Envelope, me: DeviceId) {
    env.sender != me && env.contentType != Application && env.contentType != Welcome
  }

  predicate InPage(pos: seq<nat>, page: seq<Envelope>) {
    forall j :: 0 <= j < |pos| ==> pos[j] < |page|
  }

  /** The commit to epoch e + 1 + j stands at row pos[j] and comes from a known foreign device. */
  predicate StandsAt(page: seq<Envelope>, me: DeviceId, known: set<DeviceId>, e: nat, pos: seq<nat>, j: nat)
    requires j < |pos| && InPage(pos, page)
  {
    var env := page[pos[j]];
    CommitFor(env, e + 1 + j) && env.sender in known && env.sender != me
  }

  /** Row i is passed over, or is the one commit for its epoch. */
  predicate Accounted(page: seq<Envelope>, me: DeviceId, e: nat, pos: seq<nat>, i: nat)
    requires i < |page|
  {
    Candidate(page[i], me) && page[i].epoch > e ==>
      page[i].epoch <= e + |pos| && pos[page[i].epoch - e - 1] == i
  }

  ghost predicate CommitsAt(page: seq<Envelope>, me: DeviceId, known: set<DeviceId>, e: nat, pos: seq<nat>) {
    && InPage(pos, page)
    && (forall j :: 0 <= j < |pos| ==> StandsAt(page, me, known, e, pos, j))
    && (forall i :: 0 <= i < |page| ==> Accounted(page, me, e, pos, i))
  }

  function Descents(pos: seq<nat>): nat {
    if |pos| < 2 then 0 else (if pos[1] < pos[0] then 1 else 0) + Descents(pos[1..])
  }

  ghost predicate Distinct(s: seq<nat>) {
    forall a, b :: 0 <= a < b < |s| ==> s[a] != s[b]
  }

  ghost predicate Ascending(s: seq<nat>) {
    forall a, b :: 0 <= a < b < |s| ==> s[a] < s[b]
  }

  function Apply(g: Group, wire: Wire): Group {
    if wire.CommitWire? then Group(g.epoch + 1, g.members - wire.removes + wire.adds) else g
  }

  /** The group after the first a commits in epoch order. */
  function Chain(g: Group, page: seq<Envelope>, pos: seq<nat>, a: nat): (r: Group)
    requires a <= |pos| && InPage(pos, page)
  {
    if a == 0 then g else Apply(Chain(g, page, pos, a - 1), page[pos[a - 1]].wire)
  }

  lemma {:induction false} ChainEpoch(g: Group, page: seq<Envelope>, me: DeviceId, known: set<DeviceId>, pos: seq<nat>, a: nat)
    requires CommitsAt(page, me, known, g.epoch, pos) && a <= |pos|
    ensures Chain(g, page, pos, a).epoch == g.epoch + a
  {
    if a > 0 {
      ChainEpoch(g, page, me, known, pos, a - 1);
      assert StandsAt(page, me, known, g.epoch, pos, a - 1);
    }
  }

  lemma PosDistinct(page: seq<Envelope>, me: DeviceId, known: set<DeviceId>, e: nat, pos: seq<nat>, a: nat, b: nat)
    requires CommitsAt(page, me, known, e, pos) && a < |pos| && b < |pos| && pos[a] == pos[b]
    ensures a == b
  {
    assert StandsAt(page, me, known, e, pos, a) && StandsAt(page, me, known, e, pos, b);
  }

  // ---------------------------------------------------------------------------
  // The first ascending run
  // ---------------------------------------------------------------------------

  /** Length of the longest ascending prefix. */
  function Run(pos: seq<nat>): (k: nat)
    ensures k <= |pos| && (pos != [] ==> k > 0)
  {
    if |pos| < 2 then |pos| else if pos[0] < pos[1] then 1 + Run(pos[1..]) else 1
  }

  /** Inside the first run positions rise; just past its end the next one lies behind. */
  lemma {:induction false} RunOrder(pos: seq<nat>, a: nat)
    requires 0 < a < |pos|
    ensures a < Run(pos) ==> pos[a - 1] < pos[a]
    ensures a == Run(pos) ==> pos[a] <= pos[a - 1]
  {
    if a > 1 && pos[0] < pos[1] { RunOrder(pos[1..], a - 1); }
  }

  lemma {:induction false} DescentsAfterRun(pos: seq<nat>)
    requires Distinct(pos)
    ensures Descents(pos) == if Run(pos) == |pos| then 0 else 1 + Descents(pos[Run(pos)..])
  {
    if |pos| >= 2 {
      DescentsAfterRun(pos[1..]);
      if pos[0] < pos[1] {
        assert pos[1..][Run(pos[1..])..] == pos[Run(pos)..];
      }
    }
  }

  lemma {:induction false} DescentsOfSuffix(pos: seq<nat>, k: nat)
    requires k <= |pos|
    ensures Descents(pos[k..]) <= Descents(pos)
  {
    if k == 0 {
      assert pos[0..] == pos;
    } else {
      DescentsOfSuffix(pos[1..], k - 1);
      assert pos[1..][k - 1..] == pos[k..];
    }
  }

  lemma {:induction false} NoDescentIsAscending(s: seq<nat>)
    requires Distinct(s)
    ensures Descents(s) == 0 <==> Ascending(s)
  {
    if |s| >= 2 {
      NoDescentIsAscending(s[1..]);
      if Descents(s) == 0 {
        forall a, b | 0 <= a < b < |s| ensures s[a] < s[b] {
          assert s[1..][b - 1] == s[b];
          if a > 0 { assert s[1..][a - 1] == s[a]; }
          else if b > 1 { assert s[1..][0] < s[1..][b - 1]; }
        }
      }
      if Ascending(s) {
        assert s[0] < s[1];
        assert forall a :: 0 <= a < |s| - 1 ==> s[1..][a] == s[a + 1];
      }
    }
  }

  // ---------------------------------------------------------------------------
  // First pass
  // ---------------------------------------------------------------------------

  /** Rows before i that are candidates for an epoch beyond n, in page order. */
  function Later(page: seq<Envelope>, i: nat, me: DeviceId, n: nat): (r: seq<nat>)
    requires i <= |page|
    ensures forall t :: 0 <= t < |r| ==> r[t] < i
  {
    if i == 0 then []
    else Later(page, i - 1, me, n) + (if Candidate(page[i - 1], me) && page[i - 1].epoch > n then [i - 1] else [])
  }

  lemma {:induction false} LaterAscends(page: seq<Envelope>, i: nat, me: DeviceId, n: nat)
    requires i <= |page|
    ensures Ascending(Later(page, i, me, n))
  {
    if i > 0 { LaterAscends(page, i - 1, me, n); }
  }

  function Rows(page: seq<Envelope>, indices: seq<nat>): (r: seq<Envelope>)
    requires forall t :: 0 <= t < |indices| ==> indices[t] < |page|
    ensures |r| == |indices| && forall t :: 0 <= t < |r| ==> r[t] == page[indices[t]]
  {
    seq(|indices|, t requires 0 <= t < |indices| => page[indices[t]])
  }

  lemma {:induction false} LaterHolds(page: seq<Envelope>, i: nat, me: DeviceId, n: nat, x: nat)
    requires i <= |page|
    ensures x in Later(page, i, me, n) <==> x < i && Candidate(page[x], me) && page[x].epoch > n
  {
    if i > 0 { LaterHolds(page, i - 1, me, n, x); }
  }

  lemma {:induction false} LaterShift(page: seq<Envelope>, i: nat, me: DeviceId, n: nat)
    requires i <= |page|
    requires forall x :: 0 <= x < i && Candidate(page[x], me) ==> page[x].epoch != n + 1
    ensures Later(page, i, me, n) == Later(page, i, me, n + 1)
  {
    if i > 0 { LaterShift(page, i - 1, me, n); }
  }

  ghost predicate Reached(s: Scan, g: Group, page: seq<Envelope>, i: nat, me: DeviceId, blocked: Option<ErrorCode>, pos: seq<nat>, a: nat)
    requires i <= |page| && a <= |pos| && InPage(pos, page)
  {
    && s.thrown.None?
    && s.group == Some(Chain(g, page, pos, a))
    && s.deferred == Rows(page, Later(page, i, me, g.epoch + a))
    && s.blocked == (if s.deferred == [] then blocked else Some(MissingCommit))
  }

  /** The row brings nothing: the scan passes it over. */
  lemma PassOver(page: seq<Envelope>, i: nat, me: DeviceId, known: set<DeviceId>, g: Group, blocked: Option<ErrorCode>, pos: seq<nat>, a: nat, s: Scan)
    requires i < |page| && CommitsAt(page, me, known, g.epoch, pos) && a <= |pos|
    requires !(Candidate(page[i], me) && page[i].epoch > g.epoch + a)
    requires Reached(s, g, page, i, me, blocked, pos, a)
    ensures Reached(FirstStep(s, page[i], me, known), g, page, i + 1, me, blocked, pos, a)
  {
    ChainEpoch(g, page, me, known, pos, a);
    assert Later(page, i + 1, me, g.epoch + a) == Later(page, i, me, g.epoch + a);
  }

  /** The row is the next commit: it applies. */
  lemma TakeNext(page: seq<Envelope>, i: nat, me: DeviceId, known: set<DeviceId>, g: Group, blocked: Option<ErrorCode>, pos: seq<nat>, a: nat, s: Scan)
    requires i < |page| && CommitsAt(page, me, known, g.epoch, pos) && a < |pos| && pos[a] == i
    requires Candidate(page[i], me)
    requires Reached(s, g, page, i, me, blocked, pos, a)
    ensures Reached(FirstStep(s, page[i], me, known), g, page, i + 1, me, blocked, pos, a + 1)
  {
    ChainEpoch(g, page, me, known, pos, a);
    assert StandsAt(page, me, known, g.epoch, pos, a);
    NoOtherRow(page, i, me, known, g.epoch, pos, a);
    var n := g.epoch + a + 1;
    assert Later(page, i + 1, me, n) == Later(page, i, me, n);
    assert FirstStep(s, page[i], me, known) == s.(group := Some(Apply(Chain(g, page, pos, a), page[i].wire)));
    assert Chain(g, page, pos, a + 1) == Apply(Chain(g, page, pos, a), page[i].wire);
    assert g.epoch + (a + 1) == n;
  }

  /** The row is a commit for a later epoch: it is put aside and the chat is blocked. */
  lemma PutAside(page: seq<Envelope>, i: nat, me: DeviceId, known: set<DeviceId>, g: Group, blocked: Option<ErrorCode>, pos: seq<nat>, a: nat, s: Scan)
    requires i < |page| && CommitsAt(page, me, known, g.epoch, pos) && a <= |pos|
    requires Candidate(page[i], me) && page[i].epoch > g.epoch + a + 1
    requires Reached(s, g, page, i, me, blocked, pos, a)
    ensures Reached(FirstStep(s, page[i], me, known), g, page, i + 1, me, blocked, pos, a)
  {
    ChainEpoch(g, page, me, known, pos, a);
    assert Accounted(page, me, g.epoch, pos, i);
    assert StandsAt(page, me, known, g.epoch, pos, page[i].epoch - g.epoch - 1);
    var later := Later(page, i, me, g.epoch + a);
    assert Later(page, i + 1, me, g.epoch + a) == later + [i];
    assert Rows(page, later + [i]) == Rows(page, later) + [page[i]];
  }

  /** Before row i the scan has applied the first a commits: the run allows no more. */
  predicate Progress(pos: seq<nat>, a: nat, i: nat) {
    && a <= Run(pos)
    && (a > 0 ==> pos[a - 1] < i)
    && (a < Run(pos) ==> pos[a] >= i)
  }

  lemma ProgressStep(pos: seq<nat>, a: nat, i: nat)
    requires Progress(pos, a, i)
    ensures if a < |pos| && pos[a] == i then Progress(pos, a + 1, i + 1) else Progress(pos, a, i + 1)
  {
    if 0 < a < |pos| { RunOrder(pos, a); }
    if a + 1 < |pos| { RunOrder(pos, a + 1); }
  }

  lemma {:induction false} FirstPassReaches(
    page: seq<Envelope>, i: nat, me: DeviceId, known: set<DeviceId>, g: Group, blocked: Option<ErrorCode>, pos: seq<nat>)
    returns (a: nat)
    requires i <= |page| && CommitsAt(page, me, known, g.epoch, pos)
    ensures Progress(pos, a, i)
    ensures Reached(FirstPass(Scan(Some(g), [], blocked, None), page, i, me, known), g, page, i, me, blocked, pos, a)
  {
    a := 0;
    if i > 0 {
      a := FirstPassReaches(page, i - 1, me, known, g, blocked, pos);
      ProgressStep(pos, a, i - 1);
      a := RowStep(page, i - 1, me, known, g, blocked, pos, a, FirstPass(Scan(Some(g), [], blocked, None), page, i - 1, me, known));
    }
  }

  lemma RowStep(page: seq<Envelope>, i: nat, me: DeviceId, known: set<DeviceId>, g: Group, blocked: Option<ErrorCode>, pos: seq<nat>, a: nat, s: Scan)
    returns (b: nat)
    requires i < |page| && CommitsAt(page, me, known, g.epoch, pos) && a <= |pos|
    requires Reached(s, g, page, i, me, blocked, pos, a)
    ensures b == if a < |pos| && pos[a] == i then a + 1 else a
    ensures Reached(FirstStep(s, page[i], me, known), g, page, i + 1, me, blocked, pos, b)
  {
    assert Accounted(page, me, g.epoch, pos, i);
    if a < |pos| && pos[a] == i {
      assert StandsAt(page, me, known, g.epoch, pos, a);
      TakeNext(page, i, me, known, g, blocked, pos, a, s);
      b := a + 1;
    } else {
      b := a;
      if Candidate(page[i], me) && page[i].epoch > g.epoch + a {
        PutAside(page, i, me, known, g, blocked, pos, a, s);
      } else {
        PassOver(page, i, me, known, g, blocked, pos, a, s);
      }
    }
  }

  /** No row before the commit to epoch e + a + 1 is for that epoch, so none leaves the deferred list with it. */
  lemma NoOtherRow(page: seq<Envelope>, i: nat, me: DeviceId, known: set<DeviceId>, e: nat, pos: seq<nat>, a: nat)
    requires i < |page| && CommitsAt(page, me, known, e, pos) && a < |pos| && pos[a] == i
    ensures Later(page, i, me, e + a) == Later(page, i, me, e + a + 1)
  {
    forall x | 0 <= x < i && Candidate(page[x], me) ensures page[x].epoch != e + a + 1 {
      assert Accounted(page, me, e, pos, x);
    }
    LaterShift(page, i, me, e + a);
  }

  // ---------------------------------------------------------------------------
  // Second pass
  // ---------------------------------------------------------------------------

  lemma {:induction false} SecondPassFollows(
    page: seq<Envelope>, me: DeviceId, known: set<DeviceId>, g: Group, pos: seq<nat>, k: nat, start: Scan, indices: seq<nat>, t: nat)
    requires CommitsAt(page, me, known, g.epoch, pos) && k <= |pos|
    requires forall u :: 0 <= u < |indices| ==> indices[u] < |page|
    requires start.deferred == Rows(page, indices) && start.thrown.None? && start.group == Some(Chain(g, page, pos, k))
    requires t <= |indices| && k + t <= |pos|
    requires forall u :: 0 <= u < t ==> indices[u] == pos[k + u]
    ensures SecondPass(start, t) == start.(group := Some(Chain(g, page, pos, k + t)))
  {
    if t > 0 {
      SecondPassFollows(page, me, known, g, pos, k, start, indices, t - 1);
      ChainEpoch(g, page, me, known, pos, k + t - 1);
      assert StandsAt(page, me, known, g.epoch, pos, k + t - 1);
    }
  }

  lemma SecondPassFails(
    page: seq<Envelope>, me: DeviceId, known: set<DeviceId>, g: Group, pos: seq<nat>, k: nat, start: Scan, indices: seq<nat>, t: nat, j: nat)
    requires CommitsAt(page, me, known, g.epoch, pos) && k <= |pos|
    requires forall u :: 0 <= u < |indices| ==> indices[u] < |page|
    requires start.deferred == Rows(page, indices) && start.thrown.None? && start.group == Some(Chain(g, page, pos, k))
    requires t < |indices| && k + t < |pos| && j < |pos|
    requires forall u :: 0 <= u < t ==> indices[u] == pos[k + u]
    requires indices[t] == pos[j] && j != k + t
    ensures SecondPass(start, |indices|)
         == start.(group := Some(Chain(g, page, pos, k + t)), blocked := Some(MissingCommit), thrown := Some(MissingCommit))
  {
    SecondPassFollows(page, me, known, g, pos, k, start, indices, t);
    ChainEpoch(g, page, me, known, pos, k + t);
    assert StandsAt(page, me, known, g.epoch, pos, j);
    SecondPassStops(start, t + 1, |indices|);
  }

  /** Deferred rows and outstanding commits are the same rows. */
  lemma DeferredAreOutstanding(page: seq<Envelope>, me: DeviceId, known: set<DeviceId>, e: nat, pos: seq<nat>, k: nat)
    requires CommitsAt(page, me, known, e, pos) && k <= |pos|
    ensures forall x :: x in Later(page, |page|, me, e + k) <==> x in pos[k..]
  {
    forall x: nat ensures x in Later(page, |page|, me, e + k) <==> x in pos[k..] {
      LaterHolds(page, |page|, me, e + k, x);
      if x in Later(page, |page|, me, e + k) {
        assert Accounted(page, me, e, pos, x);
        var j := page[x].epoch - e - 1;
        assert pos[j] == x && pos[k..][j - k] == x;
      }
      if x in pos[k..] {
        var u: nat :| u < |pos| - k && pos[k..][u] == x;
        assert StandsAt(page, me, known, e, pos, k + u);
      }
    }
  }

  /** The first place where the deferred rows leave epoch order. */
  lemma FirstMismatch(indices: seq<nat>, want: seq<nat>) returns (t: nat)
    requires indices != want
    requires forall x :: x in indices <==> x in want
    requires Distinct(indices) && Distinct(want)
    ensures t < |indices| && t < |want| && indices[t] != want[t]
    ensures forall u :: 0 <= u < t ==> indices[u] == want[u]
  {
    t := 0;
    while t < |indices| && t < |want| && indices[t] == want[t]
      invariant t <= |indices| && t <= |want|
      invariant forall u :: 0 <= u < t ==> indices[u] == want[u]
    {
      t := t + 1;
    }
    if t == |indices| || t == |want| {
      Exhausted(indices, want, t);
    }
  }

  lemma Exhausted(indices: seq<nat>, want: seq<nat>, t: nat)
    requires t <= |indices| && t <= |want| && (t == |indices| || t == |want|)
    requires indices[..t] == want[..t]
    requires forall x :: x in indices <==> x in want
    requires Distinct(indices) && Distinct(want)
    ensures indices == want
  {
    if t < |want| { NewElement(want, t); }
    if t < |indices| { NewElement(indices, t); }
  }

  lemma NewElement(s: seq<nat>, t: nat)
    requires Distinct(s) && t < |s|
    ensures s[t] in s && s[t] !in s[..t]
  {
  }

  lemma AscendingUnique(s: seq<nat>, t: seq<nat>)
    requires Ascending(s) && Ascending(t)
    requires forall x :: x in s <==> x in t
    ensures s == t
  {
    if s != t {
      var u := FirstMismatch(s, t);
      if s[u] < t[u] { SmallerIsNew(s, t, u); } else { SmallerIsNew(t, s, u); }
    }
  }

  lemma SmallerIsNew(s: seq<nat>, t: seq<nat>, u: nat)
    requires Ascending(s) && Ascending(t) && u < |s| && u < |t| && s[u] < t[u]
    requires forall v :: 0 <= v < u ==> s[v] == t[v]
    ensures s[u] in s && s[u] !in t
  {
  }

  // ---------------------------------------------------------------------------
  // Main results
  // ---------------------------------------------------------------------------

  lemma PosAreDistinct(page: seq<Envelope>, me: DeviceId, known: set<DeviceId>, e: nat, pos: seq<nat>)
    requires CommitsAt(page, me, known, e, pos)
    ensures Distinct(pos)
  {
    forall x, y | 0 <= x < y < |pos| ensures pos[x] != pos[y] {
      if pos[x] == pos[y] { PosDistinct(page, me, known, e, pos, x, y); }
    }
  }

  lemma Find(want: seq<nat>, indices: seq<nat>, t: nat) returns (j: nat)
    requires t < |indices| && forall x :: x in indices <==> x in want
    ensures j < |want| && want[j] == indices[t]
  {
    assert indices[t] in indices;
    j :| j < |want| && want[j] == indices[t];
  }

  /** Deferred rows are in epoch order exactly when the rest of the positions does not descend. */
  lemma DeferredOrder(page: seq<Envelope>, me: DeviceId, known: set<DeviceId>, e: nat, pos: seq<nat>, k: nat) returns (t: nat, j: nat)
    requires CommitsAt(page, me, known, e, pos) && k <= |pos|
    ensures var indices := Later(page, |page|, me, e + k);
            if Descents(pos[k..]) == 0 then indices == pos[k..]
            else
              && t < |indices| && k + t < |pos| && k + j < |pos|
              && indices[t] == pos[k + j] && j != t
              && forall u :: 0 <= u < t ==> indices[u] == pos[k + u]
  {
    var indices := Later(page, |page|, me, e + k);
    var want := pos[k..];
    t, j := 0, 0;
    PosAreDistinct(page, me, known, e, pos);
    NoDescentIsAscending(want);
    LaterAscends(page, |page|, me, e + k);
    DeferredAreOutstanding(page, me, known, e, pos, k);
    if Ascending(want) {
      AscendingUnique(indices, want);
    } else {
      t := FirstMismatch(indices, want);
      j := Find(want, indices, t);
    }
  }

  /** The second pass over everything beyond the first run. */
  lemma SecondPassOutcome(page: seq<Envelope>, me: DeviceId, known: set<DeviceId>, g: Group, pos: seq<nat>, k: nat, first: Scan)
    returns (a: nat)
    requires CommitsAt(page, me, known, g.epoch, pos) && k <= |pos|
    requires first.thrown.None? && first.group == Some(Chain(g, page, pos, k))
    requires first.deferred == Rows(page, Later(page, |page|, me, g.epoch + k))
    ensures k <= a <= |pos|
    ensures var s := SecondPass(first, |first.deferred|);
            if Descents(pos[k..]) == 0 then a == |pos| && s == first.(group := Some(Chain(g, page, pos, a)))
            else a < |pos| && s == first.(group := Some(Chain(g, page, pos, a)), blocked := Some(MissingCommit), thrown := Some(MissingCommit))
    ensures first.deferred == [] <==> k == |pos|
  {
    var indices := Later(page, |page|, me, g.epoch + k);
    var t, j := DeferredOrder(page, me, known, g.epoch, pos, k);
    if Descents(pos[k..]) == 0 {
      a := |pos|;
      assert |first.deferred| == |indices| == |pos[k..]|;
      SecondPassFollows(page, me, known, g, pos, k, first, indices, |indices|);
    } else {
      a := k + t;
      SecondPassFails(page, me, known, g, pos, k, first, indices, t, k + j);
    }
  }

  /** What one scan of such a page leaves behind, and after how many commits. */
  lemma ScanOutcome(page: seq<Envelope>, me: DeviceId, known: set<DeviceId>, g: Group, blocked: Option<ErrorCode>, pos: seq<nat>)
    returns (a: nat)
    requires CommitsAt(page, me, known, g.epoch, pos)
    ensures Run(pos) <= a <= |pos|
    ensures var s := ScanLog(Some(g), blocked, page, me, known);
            && s.group == Some(Chain(g, page, pos, a))
            && (Descents(pos) <= 1 ==> a == |pos| && s.thrown.None?)
            && (Descents(pos) == 0 ==> s.blocked == blocked)
            && (Descents(pos) == 1 ==> s.blocked == Some(MissingCommit))
            && (Descents(pos) > 1 ==> a < |pos| && s.thrown == Some(MissingCommit) && s.blocked == Some(MissingCommit))
  {
    var k := FirstPassReaches(page, |page|, me, known, g, blocked, pos);
    var first := FirstPass(Scan(Some(g), [], blocked, None), page, |page|, me, known);
    PosAreDistinct(page, me, known, g.epoch, pos);
    DescentsAfterRun(pos);
    a := SecondPassOutcome(page, me, known, g, pos, k, first);
  }

  /**
    The exact condition: one synchronisation reaches the newest epoch without
    throwing if and only if the row positions, taken in epoch order, descend at
    most once.  One descent already blocks sending; more end in an error.
   */
  lemma TwoPassExact(page: seq<Envelope>, me: DeviceId, known: set<DeviceId>, g: Group, blocked: Option<ErrorCode>, pos: seq<nat>)
    requires CommitsAt(page, me, known, g.epoch, pos)
    ensures var s := ScanLog(Some(g), blocked, page, me, known);
            && s.group.Some?
            && (s.thrown.None? <==> Descents(pos) <= 1)
            && (s.thrown.None? <==> s.group.value.epoch == g.epoch + |pos|)
            && (s.thrown.None? ==> s.group.value == Chain(g, page, pos, |pos|))
            && (s.thrown.Some? ==> s.thrown == Some(MissingCommit))
            && s.blocked == if Descents(pos) == 0 then blocked else Some(MissingCommit)
  {
    var a := ScanOutcome(page, me, known, g, blocked, pos);
    ChainEpoch(g, page, me, known, pos, a);
  }

  /** Synchronising r times in a row over an unchanged page. */
  function Rounds(group: Option<Group>, blocked: Option<ErrorCode>, page: seq<Envelope>, me: DeviceId, known: set<DeviceId>, r: nat): Scan
    requires r > 0
    decreases r
  {
    if r == 1 then ScanLog(group, blocked, page, me, known)
    else
      var s := ScanLog(group, blocked, page, me, known);
      Rounds(s.group, s.blocked, page, me, known, r - 1)
  }

  lemma CommitsAtSuffix(page: seq<Envelope>, me: DeviceId, known: set<DeviceId>, e: nat, pos: seq<nat>, a: nat, e': nat, rest: seq<nat>)
    requires CommitsAt(page, me, known, e, pos) && a <= |pos| && e' == e + a && rest == pos[a..]
    ensures CommitsAt(page, me, known, e', rest)
  {
    forall j | 0 <= j < |rest| ensures StandsAt(page, me, known, e', rest, j) {
      assert StandsAt(page, me, known, e, pos, a + j);
    }
    forall i | 0 <= i < |page| ensures Accounted(page, me, e', rest, i) {
      assert Accounted(page, me, e, pos, i);
    }
  }

  lemma {:induction false} ChainSuffix(g: Group, page: seq<Envelope>, pos: seq<nat>, a: nat, b: nat)
    requires a <= b <= |pos| && InPage(pos, page)
    ensures Chain(Chain(g, page, pos, a), page, pos[a..], b - a) == Chain(g, page, pos, b)
  {
    if a < b { ChainSuffix(g, page, pos, a, b - 1); }
  }

  /** After a scan that stopped at commit a, the rest of the page is again such a page, with fewer descents. */
  lemma Remainder(page: seq<Envelope>, me: DeviceId, known: set<DeviceId>, g: Group, pos: seq<nat>, a: nat, g': Group)
    requires CommitsAt(page, me, known, g.epoch, pos) && Run(pos) <= a <= |pos|
    requires g' == Chain(g, page, pos, a)
    ensures CommitsAt(page, me, known, g'.epoch, pos[a..])
    ensures Chain(g', page, pos[a..], |pos[a..]|) == Chain(g, page, pos, |pos|)
    ensures Descents(pos[a..]) == 0 || Descents(pos[a..]) < Descents(pos)
  {
    ChainEpoch(g, page, me, known, pos, a);
    CommitsAtSuffix(page, me, known, g.epoch, pos, a, g'.epoch, pos[a..]);
    ChainSuffix(g, page, pos, a, |pos|);
    PosAreDistinct(page, me, known, g.epoch, pos);
    DescentsBeyondRun(pos, a);
  }

  lemma DescentsBeyondRun(pos: seq<nat>, a: nat)
    requires Distinct(pos) && Run(pos) <= a <= |pos|
    ensures Descents(pos[a..]) == 0 || Descents(pos[a..]) < Descents(pos)
  {
    var k := Run(pos);
    DescentsAfterRun(pos);
    DescentsOfSuffix(pos[k..], a - k);
    assert pos[k..][a - k..] == pos[a..];
    if k == |pos| { assert pos[a..] == []; }
  }

  /** However the page is shuffled, as many rounds as it has descents (and at least one) always suffice. */
  lemma {:induction false} RoundsConverge(page: seq<Envelope>, me: DeviceId, known: set<DeviceId>, g: Group, blocked: Option<ErrorCode>, pos: seq<nat>, r: nat)
    requires CommitsAt(page, me, known, g.epoch, pos)
    requires r > 0 && r >= Descents(pos)
    ensures var s := Rounds(Some(g), blocked, page, me, known, r);
            s.thrown.None? && s.group == Some(Chain(g, page, pos, |pos|))
    decreases r
  {
    var a := ScanOutcome(page, me, known, g, blocked, pos);
    if r > 1 {
      var s := ScanLog(Some(g), blocked, page, me, known);
      var g' := s.group.value;
      Remainder(page, me, known, g, pos, a, g');
      RoundsConverge(page, me, known, g', s.blocked, pos[a..], r - 1);
    }
  }

  // ---------------------------------------------------------------------------
  // Any page at all
  // ---------------------------------------------------------------------------

  predicate NoEarlier(before: Option<Group>, after: Option<Group>) {
    before.Some? ==> after.Some? && before.value.epoch <= after.value.epoch
  }

  lemma {:induction false} FirstPassNeverGoesBack(start: Scan, page: seq<Envelope>, i: nat, me: DeviceId, known: set<DeviceId>)
    requires i <= |page|
    ensures NoEarlier(start.group, FirstPass(start, page, i, me, known).group)
  {
    if i > 0 { FirstPassNeverGoesBack(start, page, i - 1, me, known); }
  }

  lemma {:induction false} SecondPassNeverGoesBack(start: Scan, i: nat)
    requires i <= |start.deferred|
    ensures NoEarlier(start.group, SecondPass(start, i).group)
  {
    if i > 0 { SecondPassNeverGoesBack(start, i - 1); }
  }

  lemma ScanNeverGoesBack(group: Option<Group>, blocked: Option<ErrorCode>, page: seq<Envelope>, me: DeviceId, known: set<DeviceId>)
    ensures NoEarlier(group, ScanLog(group, blocked, page, me, known).group)
  {
    var first := FirstPass(Scan(group, [], blocked, None), page, |page|, me, known);
    FirstPassNeverGoesBack(Scan(group, [], blocked, None), page, |page|, me, known);
    SecondPassNeverGoesBack(first, |first.deferred|);
  }

  /** Whatever the log holds and however the call ends, the local epoch never decreases. */
  lemma EpochNeverDecreases(me: DeviceId, server: Server, group: Option<Group>, blocked: Option<ErrorCode>,
                            packages: set<KeyPackage>, known: set<DeviceId>)
    ensures NoEarlier(group, Synchronized(me, server, group, blocked, packages, known).group)
  {
    if group.Some? { ScanNeverGoesBack(group, blocked, server.page, me, known); }
  }

  /** The label agrees with the payload. */
  predicate Honest(env: Envelope) {
    match env.wire
    case CommitWire(base, _, _) => env.epoch == base + 1
    case ProposalWire(base) => env.epoch == base
    case ApplicationWire => env.contentType == Application
    case _ => true
  }

  /** A further scan has nothing to do with this row. */
  predicate Settled(env: Envelope, me: DeviceId, known: set<DeviceId>, group: Option<Group>) {
    Skipped(env, me, group) || (env.sender in known && env.wire.SpentWire? && group.Some?)
  }

  lemma {:induction false} FirstPassSettles(group: Option<Group>, blocked: Option<ErrorCode>, page: seq<Envelope>, i: nat, me: DeviceId, known: set<DeviceId>)
    requires i <= |page| && forall j :: 0 <= j < |page| ==> Honest(page[j])
    ensures var s := FirstPass(Scan(group, [], blocked, None), page, i, me, known);
            && (s.deferred != [] ==> s.group.Some?)
            && (forall t :: 0 <= t < |s.deferred| ==> Honest(s.deferred[t]))
            && (s.thrown.None? ==> forall j :: 0 <= j < i ==> Settled(page[j], me, known, s.group) || page[j] in s.deferred)
  {
    if i > 0 {
      FirstPassSettles(group, blocked, page, i - 1, me, known);
      var s := FirstPass(Scan(group, [], blocked, None), page, i - 1, me, known);
      var s' := FirstPass(Scan(group, [], blocked, None), page, i, me, known);
      assert s.deferred <= s'.deferred;
      assert Honest(page[i - 1]);
    }
  }

  lemma {:induction false} SecondPassSettles(start: Scan, me: DeviceId, known: set<DeviceId>, i: nat)
    requires i <= |start.deferred| && forall t :: 0 <= t < |start.deferred| ==> Honest(start.deferred[t])
    ensures var s := SecondPass(start, i);
            s.thrown.None? ==> forall t :: 0 <= t < i ==>
              s.group.Some? && (start.deferred[t].wire.SpentWire? || Skipped(start.deferred[t], me, s.group))
  {
    if i > 0 {
      SecondPassSettles(start, me, known, i - 1);
      assert Honest(start.deferred[i - 1]);
    }
  }

  lemma {:induction false} DeferredSendersKnown(start: Scan, page: seq<Envelope>, i: nat, me: DeviceId, known: set<DeviceId>)
    requires i <= |page| && start.deferred == []
    ensures forall t :: 0 <= t < |FirstPass(start, page, i, me, known).deferred| ==>
              FirstPass(start, page, i, me, known).deferred[t].sender in known
  {
    if i > 0 { DeferredSendersKnown(start, page, i - 1, me, known); }
  }

  lemma {:induction false} SettledPageIsSkipped(group: Option<Group>, blocked: Option<ErrorCode>, page: seq<Envelope>, i: nat, me: DeviceId, known: set<DeviceId>)
    requires i <= |page| && forall j :: 0 <= j < |page| ==> Settled(page[j], me, known, group)
    ensures FirstPass(Scan(group, [], blocked, None), page, i, me, known) == Scan(group, [], blocked, None)
  {
    if i > 0 {
      SettledPageIsSkipped(group, blocked, page, i - 1, me, known);
      assert Settled(page[i - 1], me, known, group);
    }
  }

  /** A scan that did not throw has dealt with every row of its page. */
  lemma ScanSettles(group: Option<Group>, blocked: Option<ErrorCode>, page: seq<Envelope>, me: DeviceId, known: set<DeviceId>)
    requires forall j :: 0 <= j < |page| ==> Honest(page[j])
    requires ScanLog(group, blocked, page, me, known).thrown.None?
    ensures forall j :: 0 <= j < |page| ==> Settled(page[j], me, known, ScanLog(group, blocked, page, me, known).group)
  {
    var start := Scan(group, [], blocked, None);
    var first := FirstPass(start, page, |page|, me, known);
    var n := |first.deferred|;
    var s := SecondPass(first, n);
    FirstPassSettles(group, blocked, page, |page|, me, known);
    SecondPassSettles(first, me, known, n);
    SecondPassNeverGoesBack(first, n);
    DeferredSendersKnown(start, page, |page|, me, known);
    if first.thrown.Some? { SecondPassStops(first, 0, n); }
    if group.None? { GroupStaysAbsent(start, page, |page|, me, known); }
    forall j | 0 <= j < |page| ensures Settled(page[j], me, known, s.group) {
      if page[j] in first.deferred {
        var t :| 0 <= t < n && first.deferred[t] == page[j];
      }
    }
  }

  /** A scan that succeeded once changes nothing the second time, on any page with honest labels. */
  lemma RepeatChangesNothing(group: Option<Group>, blocked: Option<ErrorCode>, page: seq<Envelope>, me: DeviceId, known: set<DeviceId>, cause: Option<ErrorCode>)
    requires forall j :: 0 <= j < |page| ==> Honest(page[j])
    requires ScanLog(group, blocked, page, me, known).thrown.None?
    ensures var s := ScanLog(group, blocked, page, me, known);
            ScanLog(s.group, cause, page, me, known) == Scan(s.group, [], cause, None)
  {
    ScanSettles(group, blocked, page, me, known);
    SettledPageIsSkipped(ScanLog(group, blocked, page, me, known).group, cause, page, |page|, me, known);
  }

  lemma {:induction false} GroupStaysAbsent(start: Scan, page: seq<Envelope>, i: nat, me: DeviceId, known: set<DeviceId>)
    requires i <= |page| && start.group.None? && start.deferred == []
    ensures var s := FirstPass(start, page, i, me, known); s.group.None? && s.deferred == []
  {
    if i > 0 { GroupStaysAbsent(start, page, i - 1, me, known); }
  }

  // ---------------------------------------------------------------------------
  // The send policy
  // ---------------------------------------------------------------------------

  lemma {:induction false} FirstPassBlocks(start: Scan, page: seq<Envelope>, i: nat, me: DeviceId, known: set<DeviceId>)
    requires i <= |page| && (start.deferred != [] || start.thrown.Some? ==> start.blocked.Some?)
    ensures var s := FirstPass(start, page, i, me, known);
            s.deferred != [] || s.thrown.Some? || start.blocked.Some? ==> s.blocked.Some?
  {
    if i > 0 { FirstPassBlocks(start, page, i - 1, me, known); }
  }

  lemma {:induction false} SecondPassBlocks(start: Scan, i: nat)
    requires i <= |start.deferred| && (start.thrown.Some? ==> start.blocked.Some?)
    ensures var s := SecondPass(start, i);
            start.blocked.Some? || s.thrown.Some? ==> s.blocked.Some?
  {
    if i > 0 { SecondPassBlocks(start, i - 1); }
  }

  lemma {:induction false} JoinBlocks(start: Scan, packages: set<KeyPackage>, page: seq<Envelope>, i: nat, known: set<DeviceId>)
    requires i <= |page| && start.thrown.None?
    ensures var s := JoinLog(start, packages, page, i, known);
            start.blocked.Some? || s.thrown.Some? ==> s.blocked.Some?
  {
    if i > 0 { JoinBlocks(start, packages, page, i - 1, known); }
  }

  /** A synchronisation by itself never lifts a block, and one that throws on an envelope always leaves one. */
  lemma SyncNeverUnblocks(me: DeviceId, server: Server, group: Option<Group>, blocked: Option<ErrorCode>,
                          packages: set<KeyPackage>, known: set<DeviceId>)
    ensures var s := Synchronized(me, server, group, blocked, packages, known);
            blocked.Some? || (s.error.Some? && s.error.value.EnvelopeError?) ==> s.blocked.Some?
  {
    var page := server.page;
    var joined := JoinLog(Scan(None, [], blocked, None), packages, page, |page|, known);
    JoinBlocks(Scan(None, [], blocked, None), packages, page, |page|, known);
    var start := if group.Some? then Scan(group, [], blocked, None) else Scan(joined.group, [], joined.blocked, None);
    var first := FirstPass(start, page, |page|, me, known);
    FirstPassBlocks(start, page, |page|, me, known);
    SecondPassBlocks(first, |first.deferred|);
  }
}
