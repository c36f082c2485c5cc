/**
 Whole runs of the pool actions, new loan requests arriving in between: what every reachable
 database keeps, and how far borrow caps bind.
 */
module PoolRuns {
  import opened Common
  import opened PoolLedger

  datatype Action =
    | NewRequest(loan: Loan)
    | ApproveLoan(loanId: nat, poolId: nat)
    | TogglePoolStatus(poolId: nat, status: PoolStatus)
    | SetPoolBorrowCap(poolId: nat, cap: Option<int>)
    | CreateLendingPool(name: string, aprBps: Option<int>, cap: Option<int>)
    | RunAutoMatch(active: seq<nat>, failing: set<nat>, queue: seq<nat>)

  ghost predicate Sound(db: Db) {
    ForeignKeys(db) && PositivePrincipals(db)
  }

  /** A request names an existing pool or none; a pass reads the pending loans and the active pools. */
  ghost predicate Legal(db: Db, action: Action) {
    match action
    case NewRequest(loan) =>
      loan.status == Requested && 0 < loan.principal && (loan.pool.Some? ==> loan.pool.value < |db.pools|)
    case RunAutoMatch(active, failing, queue) => PlanIsRead(Plan(db, active, failing), queue)
    case _ => true
  }

  ghost function Next(db: Db, action: Action): Db
    requires Legal(db, action)
  {
    match action
    case NewRequest(loan) => db.(loans := db.loans + [loan])
    case ApproveLoan(loanId, poolId) => Approve(db, loanId, poolId)
    case TogglePoolStatus(poolId, status) => Toggle(db, poolId, status)
    case SetPoolBorrowCap(poolId, cap) => SetCap(db, poolId, cap)
    case CreateLendingPool(name, aprBps, cap) => Create(db, name, aprBps, cap)
    case RunAutoMatch(active, failing, queue) => AutoMatch(Plan(db, active, failing), queue).db
  }

  ghost predicate IsRun(dbs: seq<Db>, actions: seq<Action>) {
    && |dbs| == |actions| + 1
    && Sound(dbs[0])
    && forall i | 0 <= i < |actions| :: Legal(dbs[i], actions[i]) && dbs[i + 1] == Next(dbs[i], actions[i])
  }

  /** Available liquidity and approved principal of a pool id; zero for an id not in use yet. */
  function BackingOf(db: Db, pool: nat): int {
    (if pool < |db.pools| then db.pools[pool].available else 0) + ApprovedOn(db.loans, pool)
  }

  ghost predicate NoDebts(db: Db) {
    forall p | 0 <= p < |db.pools| :: 0 <= db.pools[p].available
  }

  /** `after` may follow `before`: nothing is lost, and what is no longer requested is final. */
  ghost predicate Keeps(before: Db, after: Db) {
    && Sound(after)
    && |before.loans| <= |after.loans| && |before.pools| <= |after.pools|
    && (forall pool: nat :: BackingOf(after, pool) == BackingOf(before, pool))
    && (NoDebts(before) ==> NoDebts(after))
    && (forall l | 0 <= l < |before.loans| :: LoanKeeps(before.loans[l], after.loans[l]))
  }

  ghost predicate LoanKeeps(was: Loan, row: Loan) {
    && row.principal == was.principal
    && (was.status != Requested ==> row == was)
    && (row != was ==> row.status == Approved)
  }

  lemma ApproveKeeps(db: Db, loan: nat, pool: nat)
    requires Sound(db)
    ensures Keeps(db, Approve(db, loan, pool))
  {
    if CheckApproval(db, loan, pool).Ok? {
      forall p: nat ensures BackingOf(Approve(db, loan, pool), p) == BackingOf(db, p) {
        if p < |db.pools| {
          CommitConserves(db, loan, pool, p);
        } else {
          ApprovedOnUpdate(db.loans, loan, db.loans[loan].(status := Approved, pool := Some(pool)), p);
        }
      }
    }
  }

  lemma {:induction false} ApprovedOnNone(loans: seq<Loan>, pool: nat)
    requires forall l | 0 <= l < |loans| :: loans[l].pool != Some(pool)
    ensures ApprovedOn(loans, pool) == 0
  {
    if loans != [] { ApprovedOnNone(loans[..|loans| - 1], pool); }
  }

  lemma AutoMatchKeeps(db: Db, active: seq<nat>, failing: set<nat>, queue: seq<nat>)
    requires Sound(db) && PlanIsRead(Plan(db, active, failing), queue)
    ensures Keeps(db, AutoMatch(Plan(db, active, failing), queue).db)
  {
    var plan := Plan(db, active, failing);
    var after := Pass(plan, queue, |queue|).db;
    AutoMatchIsThePass(plan, queue);
    PassKeepsTheLedger(plan, queue, |queue|);
    forall p | 0 <= p < |db.pools| ensures Drained(db.pools[p], after.pools[p], p in active) {}
    forall l | 0 <= l < |db.loans|
      ensures LoanKeeps(db.loans[l], after.loans[l])
      ensures after.loans[l].pool.Some? ==> after.loans[l].pool.value < |db.pools|
    {
      PassLoanKeeps(plan, queue, |queue|, l);
    }
    forall p: nat ensures BackingOf(after, p) == BackingOf(db, p) {
      if p < |db.pools| {
        PassConserves(plan, queue, |queue|, p);
      } else {
        ApprovedOnNone(db.loans, p);
        ApprovedOnNone(after.loans, p);
      }
    }
  }

  lemma {:induction false} PassLoanKeeps(plan: Plan, queue: seq<nat>, n: nat, l: nat)
    requires PlanIsRead(plan, queue) && PositivePrincipals(plan.read) && n <= |queue| && l < |plan.read.loans|
    ensures LoanKeeps(plan.read.loans[l], Pass(plan, queue, n).db.loans[l])
    ensures ForeignKeys(Pass(plan, queue, n).db)
  {
    if n > 0 {
      PassLoanKeeps(plan, queue, n - 1, l);
      PassTouches(plan, queue, n, l);
    }
  }

  lemma NewRequestKeeps(db: Db, loan: Loan)
    requires Sound(db) && Legal(db, NewRequest(loan))
    ensures Keeps(db, Next(db, NewRequest(loan)))
  {
    assert (db.loans + [loan])[..|db.loans|] == db.loans;
  }

  /** Changing a status or a cap, or adding an empty pool, touches no money and no loan. */
  lemma PoolChangeKeeps(db: Db, after: Db)
    requires Sound(db) && after.loans == db.loans && |db.pools| <= |after.pools|
    requires forall p | 0 <= p < |after.pools| ::
               after.pools[p].available == if p < |db.pools| then db.pools[p].available else 0
    ensures Keeps(db, after)
  {
  }

  lemma NextKeeps(db: Db, action: Action)
    requires Sound(db) && Legal(db, action)
    ensures Keeps(db, Next(db, action))
  {
    match action {
      case NewRequest(loan) => NewRequestKeeps(db, loan);
      case ApproveLoan(loanId, poolId) => ApproveKeeps(db, loanId, poolId);
      case RunAutoMatch(active, failing, queue) => AutoMatchKeeps(db, active, failing, queue);
      case _ => PoolChangeKeeps(db, Next(db, action));
    }
  }

  lemma KeepsIsTransitive(a: Db, b: Db, c: Db)
    requires Keeps(a, b) && Keeps(b, c)
    ensures Keeps(a, c)
  {
    forall l | 0 <= l < |a.loans| ensures LoanKeeps(a.loans[l], c.loans[l]) {
      assert LoanKeeps(a.loans[l], b.loans[l]) && LoanKeeps(b.loans[l], c.loans[l]);
    }
    forall pool: nat ensures BackingOf(c, pool) == BackingOf(a, pool) {
      assert BackingOf(c, pool) == BackingOf(b, pool);
    }
  }

  /**
   Conservation over every run: between any two moments, each pool's available liquidity plus
   the principals approved on it is the same, liquidity never goes negative, and a loan that
   has left the requested state never changes again, so none is approved twice.
   */
  lemma {:induction false} RunsConserve(dbs: seq<Db>, actions: seq<Action>, i: nat, j: nat)
    requires IsRun(dbs, actions) && i <= j <= |actions|
    ensures Sound(dbs[j]) && Keeps(dbs[i], dbs[j])
    decreases j
  {
    if i < j {
      RunsConserve(dbs, actions, i, j - 1);
      NextKeeps(dbs[j - 1], actions[j - 1]);
      KeepsIsTransitive(dbs[i], dbs[j - 1], dbs[j]);
    } else if i > 0 {
      RunsConserve(dbs, actions, i - 1, j - 1);
      NextKeeps(dbs[j - 1], actions[j - 1]);
    }
  }

  // ------------------------------------------------------------- rules of approval

  /** Loan `l` may be approved on pool `p` by what the tables say. */
  ghost predicate MayBeApproved(db: Db, l: nat, p: nat)
    requires l < |db.loans|
  {
    && p < |db.pools| && db.loans[l].status == Requested && db.pools[p].status == Active
    && db.loans[l].principal <= db.pools[p].available
    && (db.pools[p].cap.Some? ==> db.pools[p].totalBorrowed + db.loans[l].principal <= db.pools[p].cap.value)
  }

  /** Loan `l` was approved between the two. */
  ghost predicate NewlyApproved(before: Db, after: Db, l: nat) {
    && l < |before.loans| && l < |after.loans|
    && before.loans[l].status != Approved && after.loans[l].status == Approved
  }

  lemma AutoMatchKeepsTheRules(db: Db, active: seq<nat>, failing: set<nat>, queue: seq<nat>, l: nat)
    requires Sound(db) && PlanIsRead(Plan(db, active, failing), queue)
    requires NewlyApproved(db, AutoMatch(Plan(db, active, failing), queue).db, l)
    ensures AutoMatch(Plan(db, active, failing), queue).db.loans[l].pool.Some?
    ensures MayBeApproved(db, l, AutoMatch(Plan(db, active, failing), queue).db.loans[l].pool.value)
  {
    var plan := Plan(db, active, failing);
    AutoMatchIsThePass(plan, queue);
    PassTouches(plan, queue, |queue|, l);
    assert InQueueIfPending(db, queue, l);
    var i :| 0 <= i < |queue| && queue[i] == l;
    PassIsComplete(plan, queue, |queue|, i);
    DrainedLater(plan, queue, 0, i);
  }

  /**
   The rules of approval over every run: whichever action approves a loan, the loan was requested
   before it, its pool was active and had the principal available, and the principal fitted under
   the pool's cap if it had one.
   */
  lemma ApprovalsKeepTheRules(dbs: seq<Db>, actions: seq<Action>, i: nat, l: nat)
    requires IsRun(dbs, actions) && i < |actions| && NewlyApproved(dbs[i], dbs[i + 1], l)
    ensures dbs[i + 1].loans[l].pool.Some? && MayBeApproved(dbs[i], l, dbs[i + 1].loans[l].pool.value)
  {
    RunsConserve(dbs, actions, i, i);
    assert Legal(dbs[i], actions[i]) && dbs[i + 1] == Next(dbs[i], actions[i]);
    match actions[i] {
      case RunAutoMatch(active, failing, queue) => AutoMatchKeepsTheRules(dbs[i], active, failing, queue, l);
      case _ =>
    }
  }

  /** In every run an explicit approval of an existing loan on an existing pool succeeds whenever the rules allow it. */
  lemma ApproveStepIsExact(dbs: seq<Db>, actions: seq<Action>, i: nat)
    requires IsRun(dbs, actions) && i < |actions| && actions[i].ApproveLoan?
    requires actions[i].loanId < |dbs[i].loans|
    ensures NewlyApproved(dbs[i], dbs[i + 1], actions[i].loanId)
       <==> MayBeApproved(dbs[i], actions[i].loanId, actions[i].poolId)
    ensures !MayBeApproved(dbs[i], actions[i].loanId, actions[i].poolId) ==> dbs[i + 1] == dbs[i]
  {
    assert dbs[i + 1] == Next(dbs[i], actions[i]);
    if actions[i].poolId < |dbs[i].pools| {
      ApprovalIsExact(dbs[i], actions[i].loanId, actions[i].poolId);
    }
  }

  ghost predicate CapsArePositive(db: Db) {
    forall p | 0 <= p < |db.pools| && db.pools[p].cap.Some? :: 0 < db.pools[p].cap.value
  }

  lemma {:induction false} PassKeepsCaps(plan: Plan, queue: seq<nat>, n: nat, p: nat)
    requires InRange(plan, queue) && n <= |queue| && p < |plan.read.pools|
    ensures Pass(plan, queue, n).db.pools[p].cap == plan.read.pools[p].cap
    ensures Pass(plan, queue, n).db.pools[p].status == plan.read.pools[p].status
    ensures Pass(plan, queue, n).db.pools[p].totalBorrowed == plan.read.pools[p].totalBorrowed
  {
    if n > 0 { PassKeepsCaps(plan, queue, n - 1, p); }
  }

  lemma NextKeepsCaps(db: Db, action: Action)
    requires Sound(db) && Legal(db, action) && CapsArePositive(db)
    ensures CapsArePositive(Next(db, action))
  {
    match action {
      case RunAutoMatch(active, failing, queue) =>
        AutoMatchIsThePass(Plan(db, active, failing), queue);
        forall p | 0 <= p < |db.pools| ensures Next(db, action).pools[p].cap == db.pools[p].cap {
          PassKeepsCaps(Plan(db, active, failing), queue, |queue|, p);
        }
      case _ =>
    }
  }

  /** No run stores a cap that is not positive. */
  lemma {:induction false} CapsStayPositive(dbs: seq<Db>, actions: seq<Action>, i: nat)
    requires IsRun(dbs, actions) && CapsArePositive(dbs[0]) && i <= |actions|
    ensures CapsArePositive(dbs[i])
  {
    if i > 0 {
      CapsStayPositive(dbs, actions, i - 1);
      RunsConserve(dbs, actions, i - 1, i - 1);
      NextKeepsCaps(dbs[i - 1], actions[i - 1]);
    }
  }

  // ----------------------------------------------------------------- borrow caps

  /** How much of a pool one pass draws. */
  function Drawn(plan: Plan, queue: seq<nat>, pool: nat): int
    requires InRange(plan, queue) && pool < |plan.read.pools|
  {
    plan.read.pools[pool].available - AutoMatch(plan, queue).db.pools[pool].available
  }

  function Headroom(pool: Pool): int
    requires pool.cap.Some?
  {
    pool.cap.value - pool.totalBorrowed
  }

  /** The route that creates loans keeps every principal between a minimum and a credit limit. */
  ghost predicate LoansBetween(db: Db, least: int, most: int) {
    forall l | 0 <= l < |db.loans| :: least <= db.loans[l].principal <= most
  }

  /** A pass over tables as the action reads them. */
  ghost predicate IsPass(plan: Plan, queue: seq<nat>, least: int, most: int) {
    && PlanIsRead(plan, queue) && ByRequestTime(plan.read, queue) && ByLiquidity(plan.read, plan.active)
    && LoansBetween(plan.read, least, most)
  }

  /** The largest loan that passes the pool's cap test. */
  function LargestLoan(pool: Pool, most: int): int
    requires pool.cap.Some?
  {
    Min(most, Headroom(pool))
  }

  /** How many of the largest loans it takes to overrun the cap. */
  function Overrunning(pool: Pool, most: int): int
    requires pool.cap.Some? && 1 <= LargestLoan(pool, most)
  {
    Headroom(pool) / LargestLoan(pool, most) + 1
  }

  /**
   The pool has no more available than its cap leaves, or no loan passes the cap test, or it
   cannot pay for as many of the smallest loans as it takes largest ones to overrun the cap.
   */
  predicate CapBinds(pool: Pool, least: int, most: int)
    requires pool.cap.Some? && 1 <= least
  {
    || pool.available <= Headroom(pool) || LargestLoan(pool, most) < least
    || pool.available < Overrunning(pool, most) * least
  }

  /** The pool has lent `count` loans that pass its cap test. */
  ghost predicate LentLoans(was: Pool, row: Pool, least: int, most: int, count: nat)
    requires was.cap.Some?
  {
    count * least <= was.available - row.available <= count * LargestLoan(was, most)
  }

  lemma OneMoreLoan(least: int, most: int, drawn: int, principal: int, count: nat)
    requires count * least <= drawn <= count * most && least <= principal <= most
    ensures (count + 1) * least <= drawn + principal <= (count + 1) * most
  {
    assert (count + 1) * least == count * least + least && (count + 1) * most == count * most + most;
  }

  lemma StepLends(plan: Plan, l: nat, at: Progress, pool: nat, least: int, most: int, count: nat) returns (counted: nat)
    requires ForeignKeys(plan.read) && forall p | p in plan.active :: p < |plan.read.pools|
    requires l < |plan.read.loans| == |at.db.loans| && |plan.read.pools| == |at.db.pools|
    requires 1 <= least <= plan.read.loans[l].principal == at.db.loans[l].principal <= most && Ledger(plan, at)
    requires pool < |plan.read.pools| && plan.read.pools[pool].cap.Some?
    requires LentLoans(plan.read.pools[pool], at.db.pools[pool], least, most, count)
    ensures LentLoans(plan.read.pools[pool], MatchOne(plan, l, at).db.pools[pool], least, most, counted)
  {
    TargetIsActive(plan, at.liquidity, plan.read.loans[l]);
    var was, row := plan.read.pools[pool], at.db.pools[pool];
    if Matches(plan, at.liquidity, l) && Target(plan.active, at.liquidity, plan.read.loans[l]) == Some(pool) {
      OneMoreLoan(least, LargestLoan(was, most), was.available - row.available, plan.read.loans[l].principal, count);
      counted := count + 1;
    } else {
      counted := count;
    }
  }

  lemma NextLends(plan: Plan, queue: seq<nat>, n: nat, pool: nat, least: int, most: int, count: nat)
    returns (counted: nat)
    requires PlanIsRead(plan, queue) && 1 <= least && LoansBetween(plan.read, least, most) && n < |queue|
    requires pool < |plan.read.pools| && plan.read.pools[pool].cap.Some?
    requires LentLoans(plan.read.pools[pool], Pass(plan, queue, n).db.pools[pool], least, most, count)
    ensures LentLoans(plan.read.pools[pool], Pass(plan, queue, n + 1).db.pools[pool], least, most, counted)
  {
    PassKeepsTheLedger(plan, queue, n);
    PassTouches(plan, queue, n, queue[n]);
    counted := StepLends(plan, queue[n], Pass(plan, queue, n), pool, least, most, count);
  }

  lemma {:induction false} PassLends(plan: Plan, queue: seq<nat>, n: nat, pool: nat, least: int, most: int)
    returns (count: nat)
    requires PlanIsRead(plan, queue) && 1 <= least && LoansBetween(plan.read, least, most) && n <= |queue|
    requires pool < |plan.read.pools| && plan.read.pools[pool].cap.Some?
    ensures LentLoans(plan.read.pools[pool], Pass(plan, queue, n).db.pools[pool], least, most, count)
  {
    if n == 0 {
      count := 0;
    } else {
      count := PassLends(plan, queue, n - 1, pool, least, most);
      count := NextLends(plan, queue, n - 1, pool, least, most, count);
    }
  }

  /** Fewer loans than it takes to overrun the headroom come to no more than it. */
  lemma FewLoansFit(headroom: int, largest: int, least: int, available: int, drawn: int, count: nat)
    requires count * least <= drawn <= count * largest && drawn <= available && 1 <= least
    requires available <= headroom || largest < least || available < (headroom / largest + 1) * least
    requires largest <= headroom
    ensures drawn <= Max(0, headroom)
  {
    MoreIsMore(count, largest, least);
    if available > headroom && count > 0 {
      FewEnough(headroom / largest, least, drawn, count);
      MoreIsMore(largest, count, headroom / largest);
      assert largest * (headroom / largest) == headroom - headroom % largest;
      assert largest * count == count * largest;
    }
  }

  lemma FewEnough(q: int, least: int, drawn: int, count: nat)
    requires 1 <= least && count * least <= drawn < (q + 1) * least
    ensures count <= q
  {
    MoreIsMore(least, q + 1, count);
    assert least * count == count * least && least * (q + 1) == (q + 1) * least;
  }

  lemma MoreIsMore(a: int, b: int, c: int)
    requires 0 <= a
    ensures b <= c ==> a * b <= a * c
    ensures b < c && 0 < a ==> a * b < a * c
  {
    assert a * (c - b) == a * c - a * b;
  }

  /**
   The cap is tested loan by loan against the borrowed total read before the loop. A pass still
   keeps a pool within its cap in the cases of `CapBinds`; `LoansOverrunTheCap` shows that it may
   not otherwise.
   */
  lemma CapBindsWithinHeadroom(plan: Plan, queue: seq<nat>, pool: nat, least: int, most: int)
    requires PlanIsRead(plan, queue) && 1 <= least && LoansBetween(plan.read, least, most)
    requires pool < |plan.read.pools| && 0 <= plan.read.pools[pool].available && plan.read.pools[pool].cap.Some?
    requires CapBinds(plan.read.pools[pool], least, most)
    ensures 0 <= Drawn(plan, queue, pool) <= Max(0, Headroom(plan.read.pools[pool]))
  {
    AutoMatchIsThePass(plan, queue);
    PassKeepsTheLedger(plan, queue, |queue|);
    var was, row := plan.read.pools[pool], Pass(plan, queue, |queue|).db.pools[pool];
    assert Drained(was, row, pool in plan.active);
    var count := PassLends(plan, queue, |queue|, pool, least, most);
    FewLoansFit(Headroom(was), LargestLoan(was, most), least, was.available, was.available - row.available, count);
  }

  // ---------------------------------------------------------- a pass that overruns

  /** The least total over the cap that so many loans can come to. */
  function OverrunTotal(pool: Pool, least: int, most: int): int
    requires pool.cap.Some? && 1 <= LargestLoan(pool, most)
  {
    Max(Overrunning(pool, most) * least, Headroom(pool) + 1)
  }

  /** That total in equal parts, the remainder spread over the first. */
  function Part(total: int, parts: nat, i: nat): int
    requires 0 < parts
  {
    total / parts + if i < total % parts then 1 else 0
  }

  /** The first `n` parts. */
  function Parts(total: int, parts: nat, n: nat): int
    requires 0 < parts
  {
    n * (total / parts) + Min(n, total % parts)
  }

  lemma PartsAddUp(total: int, parts: nat, n: nat)
    requires 0 < parts
    ensures Parts(total, parts, 0) == 0 && Parts(total, parts, parts) == total
    ensures Parts(total, parts, n + 1) == Parts(total, parts, n) + Part(total, parts, n)
  {
    assert (n + 1) * (total / parts) == n * (total / parts) + total / parts;
  }

  lemma PartsRange(total: int, parts: nat, i: nat, least: int, most: int)
    requires 0 < parts && parts * least <= total <= parts * most
    ensures least <= Part(total, parts, i) <= most
  {
    var q, r := total / parts, total % parts;
    assert parts * q == total - r;
    MoreIsMore(parts, q + 1, least);
    assert parts * (q + 1) == parts * q + parts;
    MoreIsMore(parts, most, q);
    assert q == most ==> r == 0;
  }

  lemma PartsGrow(total: int, parts: nat, n: nat)
    requires 0 < parts && 0 <= total && n <= parts
    ensures Parts(total, parts, n) <= total
  {
    WholeParts(total / parts, n, parts);
    PartsAddUp(total, parts, parts);
  }

  lemma WholeParts(q: int, n: nat, parts: nat)
    requires 0 <= q && n <= parts
    ensures n * q <= parts * q
  {
    MoreIsMore(q, n, parts);
  }

  /** One active pool and a pending loan for each part of a total. */
  function LoansOf(pool: Pool, total: int, parts: nat): Plan
    requires 0 < parts
  {
    Plan(Db(seq(parts, i requires 0 <= i => Loan(Requested, Part(total, parts, i), None, i)), [pool]), [0], {})
  }

  function Upto(n: nat): seq<nat> {
    seq(n, i requires 0 <= i => i)
  }

  /** After `n` loans the pool has lent their parts, and the other loans are untouched. */
  ghost predicate PartsLent(pool: Pool, total: int, parts: nat, at: Progress, n: nat)
    requires 0 < parts
  {
    && |at.db.loans| == parts && |at.db.pools| == 1
    && at.db.pools[0].available == pool.available - Parts(total, parts, n)
    && at.liquidity == map[0 := pool.available - Parts(total, parts, n)]
    && forall k | n <= k < parts :: at.db.loans[k] == Loan(Requested, Part(total, parts, k), None, k)
  }

  /** Every part passes the cap test on its own, and the pool can pay for all of them. */
  ghost predicate PartsPass(pool: Pool, total: int, parts: nat)
    requires 0 < parts
  {
    pool.cap.Some? && 0 < total <= pool.available && forall i: nat :: PartPasses(pool, total, parts, i)
  }

  ghost predicate PartPasses(pool: Pool, total: int, parts: nat, i: nat)
    requires 0 < parts && pool.cap.Some?
  {
    0 < Part(total, parts, i) <= Headroom(pool)
  }

  lemma PartIsLent(pool: Pool, total: int, parts: nat, l: nat, at: Progress)
    requires 0 < parts && PartsPass(pool, total, parts) && l < parts && PartsLent(pool, total, parts, at, l)
    ensures PartsLent(pool, total, parts, MatchOne(LoansOf(pool, total, parts), l, at), l + 1)
  {
    var plan := LoansOf(pool, total, parts);
    PartsAddUp(total, parts, l);
    PartsGrow(total, parts, l + 1);
    assert PartPasses(pool, total, parts, l);
    assert plan.read.loans[l] == Loan(Requested, Part(total, parts, l), None, l);
    assert Target(plan.active, at.liquidity, plan.read.loans[l]) == Some(0);
    assert Matches(plan, at.liquidity, l);
  }

  lemma {:induction false} PartsAreLent(pool: Pool, total: int, parts: nat, plan: Plan, queue: seq<nat>, n: nat)
    requires 0 < parts && PartsPass(pool, total, parts) && n <= parts
    requires plan == LoansOf(pool, total, parts) && queue == Upto(parts) && InRange(plan, queue)
    ensures PartsLent(pool, total, parts, Pass(plan, queue, n), n)
  {
    if n == 0 {
      NothingLent(pool, total, parts, plan, queue);
    } else {
      PartsAreLent(pool, total, parts, plan, queue, n - 1);
      NextPartIsLent(pool, total, parts, plan, queue, n - 1);
    }
  }

  lemma NothingLent(pool: Pool, total: int, parts: nat, plan: Plan, queue: seq<nat>)
    requires 0 < parts && plan == LoansOf(pool, total, parts) && InRange(plan, queue)
    ensures PartsLent(pool, total, parts, Pass(plan, queue, 0), 0)
  {
    PartsAddUp(total, parts, 0);
    assert Pass(plan, queue, 0).liquidity == map[0 := pool.available];
  }

  lemma NextPartIsLent(pool: Pool, total: int, parts: nat, plan: Plan, queue: seq<nat>, n: nat)
    requires 0 < parts && PartsPass(pool, total, parts) && n < parts
    requires plan == LoansOf(pool, total, parts) && queue == Upto(parts) && InRange(plan, queue)
    requires PartsLent(pool, total, parts, Pass(plan, queue, n), n)
    ensures PartsLent(pool, total, parts, Pass(plan, queue, n + 1), n + 1)
  {
    PartIsLent(pool, total, parts, n, Pass(plan, queue, n));
    assert queue[n] == n;
  }

  lemma LoansOfIsRead(pool: Pool, total: int, parts: nat)
    requires 0 < parts && pool.status == Active
    ensures PlanIsRead(LoansOf(pool, total, parts), Upto(parts))
    ensures ByRequestTime(LoansOf(pool, total, parts).read, Upto(parts))
    ensures ByLiquidity(LoansOf(pool, total, parts).read, [0])
  {
    var plan, queue := LoansOf(pool, total, parts), Upto(parts);
    forall l | 0 <= l < |plan.read.loans| ensures InQueueIfPending(plan.read, queue, l) {
      assert queue[l] == l;
    }
  }

  lemma OverrunIsReached(headroom: int, largest: int, least: int)
    requires 1 <= least <= largest <= headroom
    ensures var parts, total := headroom / largest + 1, Max((headroom / largest + 1) * least, headroom + 1);
            1 <= parts && parts * least <= total <= parts * largest
  {
    var parts := headroom / largest + 1;
    assert largest * (headroom / largest) == headroom - headroom % largest;
    assert parts * largest == largest * (headroom / largest) + largest;
    MoreIsMore(parts, least, largest);
  }

  lemma PartsAreLoans(pool: Pool, total: int, parts: nat, least: int, most: int)
    requires pool.cap.Some? && 1 <= least && 0 < parts && total <= pool.available
    requires parts * least <= total <= parts * LargestLoan(pool, most)
    ensures PartsPass(pool, total, parts) && LoansBetween(LoansOf(pool, total, parts).read, least, most)
  {
    forall i: nat
      ensures least <= Part(total, parts, i) <= LargestLoan(pool, most) && PartPasses(pool, total, parts, i)
    {
      PartsRange(total, parts, i, least, LargestLoan(pool, most));
    }
    MoreIsMore(parts, 0, least);
  }

  /** Whenever the cap does not bind, a pass over equal loans overruns it. */
  lemma LoansOverrunTheCap(pool: Pool, least: int, most: int)
    requires pool.status == Active && pool.cap.Some? && 1 <= least && !CapBinds(pool, least, most)
    ensures var parts, total := Overrunning(pool, most), OverrunTotal(pool, least, most);
            && 0 < parts && IsPass(LoansOf(pool, total, parts), Upto(parts), least, most)
            && Drawn(LoansOf(pool, total, parts), Upto(parts), 0) == total > Headroom(pool)
  {
    OverrunIsReached(Headroom(pool), LargestLoan(pool, most), least);
    var parts, total := Overrunning(pool, most), OverrunTotal(pool, least, most);
    PartsAreLoans(pool, total, parts, least, most);
    LoansOfIsRead(pool, total, parts);
    LoansOfAreDrawn(pool, total, parts);
  }

  lemma LoansOfAreDrawn(pool: Pool, total: int, parts: nat)
    requires pool.status == Active && 0 < parts && PartsPass(pool, total, parts)
    requires PlanIsRead(LoansOf(pool, total, parts), Upto(parts))
    requires PositivePrincipals(LoansOf(pool, total, parts).read)
    ensures Drawn(LoansOf(pool, total, parts), Upto(parts), 0) == total
  {
    PartsAreLent(pool, total, parts, LoansOf(pool, total, parts), Upto(parts), parts);
    PartsAddUp(total, parts, 0);
    AutoMatchIsThePass(LoansOf(pool, total, parts), Upto(parts));
  }

  /**
   Exactly when a borrow cap binds: no pass over loans between `least` and `most`, in any tables
   this active pool may be part of, draws more than its cap leaves, if and only if it has no more
   available than that, or no loan passes its cap test, or it cannot pay for as many of the
   smallest loans as it takes largest ones to overrun the cap.
   */
  lemma CapBindsExactly(pool: Pool, least: int, most: int)
    requires pool.status == Active && pool.cap.Some? && 0 <= pool.available && 1 <= least
    ensures (forall plan: Plan, queue: seq<nat>, p: nat ::
               IsPass(plan, queue, least, most) && p < |plan.read.pools| && plan.read.pools[p] == pool
               ==> Drawn(plan, queue, p) <= Max(0, Headroom(pool)))
       <==> CapBinds(pool, least, most)
  {
    if CapBinds(pool, least, most) {
      forall plan: Plan, queue: seq<nat>, p: nat
        | IsPass(plan, queue, least, most) && p < |plan.read.pools| && plan.read.pools[p] == pool
        ensures Drawn(plan, queue, p) <= Max(0, Headroom(pool))
      {
        CapBindsWithinHeadroom(plan, queue, p, least, most);
      }
    } else {
      LoansOverrunTheCap(pool, least, most);
      var parts, total := Overrunning(pool, most), OverrunTotal(pool, least, most);
      assert LoansOf(pool, total, parts).read.pools[0] == pool;
    }
  }

  /** Where one loan may be as large as the headroom, two are enough to overrun the cap. */
  lemma CapBindsForLargeLoans(pool: Pool, least: int, most: int)
    requires pool.cap.Some? && 1 <= least && Headroom(pool) <= most
    ensures CapBinds(pool, least, most)
       <==> pool.available <= Headroom(pool) || Headroom(pool) < least || pool.available < 2 * least
  {
    if Headroom(pool) >= least { assert Headroom(pool) / Headroom(pool) == 1; }
  }

  /** A loan some pool could cover within its cap is passed over exactly when its own target fails the cap test. */
  lemma OnlyTheTargetsCapCounts(plan: Plan, at: Progress, l: nat, p: nat)
    requires l < |plan.read.loans| && l !in plan.failing && 0 < plan.read.loans[l].principal
    requires forall q | q in at.liquidity :: q in plan.active
    requires p in plan.active && p < |plan.read.pools| && WithinCap(plan.read.pools[p], plan.read.loans[l].principal)
    requires plan.read.loans[l].principal <= Liquidity(at.liquidity, p)
    requires forall q | q in plan.active :: q < |plan.read.pools|
    ensures var target := Target(plan.active, at.liquidity, plan.read.loans[l]);
            && target.Some? && target.value in plan.active
            && (!Matches(plan, at.liquidity, l)
                <==> !WithinCap(plan.read.pools[target.value], plan.read.loans[l].principal))
  {
    TargetIsActive(plan, at.liquidity, plan.read.loans[l]);
  }

  /**
   The first pool that can pay is the only one whose cap is tried: a loan of any amount can be
   passed over although the next active pool could cover it under its cap.
   */
  lemma CapHidesTheNextPool(amount: int)
    requires 1 < amount
    ensures var capped, open := Pool(Active, 2 * amount, 0, Some(amount - 1)), Pool(Active, amount, 0, None);
            var plan := Plan(Db([Loan(Requested, amount, None, 0)], [capped, open]), [0, 1], {});
            && IsPass(plan, [0], amount, amount)
            && WithinCap(open, amount) && open.available >= amount
            && AutoMatch(plan, [0]).db == plan.read && AutoMatch(plan, [0]).skipped == 1
  {
    var capped, open := Pool(Active, 2 * amount, 0, Some(amount - 1)), Pool(Active, amount, 0, None);
    var plan := Plan(Db([Loan(Requested, amount, None, 0)], [capped, open]), [0, 1], {});
    HiddenStep(plan, Pass(plan, [0], 0), amount);
  }

  lemma HiddenStep(plan: Plan, at: Progress, amount: int)
    requires 1 < amount && plan.active == [0, 1] && |plan.read.loans| == |at.db.loans| == 1
    requires ForeignKeys(plan.read) && |plan.read.pools| == |at.db.pools| == 2
    requires plan.read.loans[0] == Loan(Requested, amount, None, 0)
    requires plan.read.pools[0] == Pool(Active, 2 * amount, 0, Some(amount - 1))
    requires 0 in at.liquidity && at.liquidity[0] == 2 * amount
    ensures MatchOne(plan, 0, at) == at.(skipped := at.skipped + 1)
  {
  }
}
