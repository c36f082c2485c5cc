/**
 The state that app/actions/admin-pools.ts works on, and each of its actions as one serial
 step. Loans and pools are table rows; an id is the row's index. Amounts are integers in the
 smallest unit of the money columns.
 */
module PoolLedger {
  import opened Common

  datatype LoanStatus = Requested | Approved | Funded | ActiveLoan | Repaid | Defaulted | Cancelled

  datatype Loan = Loan(status: LoanStatus, principal: int, pool: Option<nat>, requestedAt: int)

  datatype PoolStatus = Active | Paused | Closed

  datatype Pool = Pool(status: PoolStatus, available: int, totalBorrowed: int, cap: Option<int>)

  datatype Db = Db(loans: seq<Loan>, pools: seq<Pool>)

  datatype Error =
    | LoanNotFound | LoanIsAlready(status: LoanStatus) | PoolNotFound | PoolNotActive
    | InsufficientLiquidity | CapExceeded | BadBorrowCap | NameRequired | BadApr

  datatype Result = Ok | Failed(error: Error)

  /** The foreign key from loans to pools. */
  ghost predicate ForeignKeys(db: Db) {
    forall l | 0 <= l < |db.loans| && db.loans[l].pool.Some? :: db.loans[l].pool.value < |db.pools|
  }

  ghost predicate PositivePrincipals(db: Db) {
    forall l | 0 <= l < |db.loans| :: 0 < db.loans[l].principal
  }

  predicate WithinCap(pool: Pool, amount: int) {
    pool.cap.None? || pool.totalBorrowed + amount <= pool.cap.value
  }

  /** The paired updates: the loan is approved on the pool and its principal reserved. */
  function Commit(db: Db, loan: nat, pool: nat): Db
    requires loan < |db.loans| && pool < |db.pools|
  {
    Db(db.loans[loan := db.loans[loan].(status := Approved, pool := Some(pool))],
       db.pools[pool := db.pools[pool].(available := db.pools[pool].available - db.loans[loan].principal)])
  }

  // -------------------------------------------------------------- single actions

  function CheckApproval(db: Db, loan: nat, pool: nat): Result {
    if loan >= |db.loans| then Failed(LoanNotFound)
    else if db.loans[loan].status != Requested then Failed(LoanIsAlready(db.loans[loan].status))
    else if pool >= |db.pools| then Failed(PoolNotFound)
    else if db.pools[pool].status != Active then Failed(PoolNotActive)
    else if db.loans[loan].principal > db.pools[pool].available then Failed(InsufficientLiquidity)
    else if !WithinCap(db.pools[pool], db.loans[loan].principal) then Failed(CapExceeded)
    else Ok
  }

  function Approve(db: Db, loan: nat, pool: nat): Db {
    if CheckApproval(db, loan, pool).Ok? then Commit(db, loan, pool) else db
  }

  /**
   An existing loan is approved if and only if it is requested, the pool is active and has its
   principal available, and the principal fits under the pool's cap if there is one. Then the
   loan carries the pool, and the principal leaves the pool's available liquidity; otherwise,
   and for every other row, nothing changes.
   */
  lemma ApprovalIsExact(db: Db, loan: nat, pool: nat)
    requires loan < |db.loans| && pool < |db.pools|
    ensures var l, p := db.loans[loan], db.pools[pool];
            var approved := && l.status == Requested && p.status == Active && l.principal <= p.available
                            && (p.cap.Some? ==> p.totalBorrowed + l.principal <= p.cap.value);
            && (CheckApproval(db, loan, pool) == Ok <==> approved)
            && (Approve(db, loan, pool) != db <==> approved)
            && (approved ==>
                  Approve(db, loan, pool)
                  == Db(db.loans[loan := Loan(Approved, l.principal, Some(pool), l.requestedAt)],
                        db.pools[pool := Pool(Active, p.available - l.principal, p.totalBorrowed, p.cap)]))
  {
    var after := Approve(db, loan, pool);
    assert CheckApproval(db, loan, pool).Ok? ==> after.loans[loan].status == Approved;
  }

  /** What each refusal means for the rows, and that a refusal changes nothing. */
  lemma RefusalsAreExact(db: Db, loan: nat, pool: nat)
    ensures var r := CheckApproval(db, loan, pool);
            && (r == Failed(LoanNotFound) <==> loan >= |db.loans|)
            && (r.Failed? && r.error.LoanIsAlready? <==> loan < |db.loans| && db.loans[loan].status != Requested)
            && (r.Failed? && r.error.LoanIsAlready? ==> r.error.status == db.loans[loan].status)
            && (r == Failed(PoolNotFound)
                <==> loan < |db.loans| && db.loans[loan].status == Requested && pool >= |db.pools|)
            && (r.Failed? ==> Approve(db, loan, pool) == db)
    ensures loan < |db.loans| && pool < |db.pools| && db.loans[loan].status == Requested ==>
              var (l, p, r) := (db.loans[loan], db.pools[pool], CheckApproval(db, loan, pool));
              && (r == Failed(PoolNotActive) <==> p.status != Active)
              && (r == Failed(InsufficientLiquidity) <==> p.status == Active && p.available < l.principal)
              && (r == Failed(CapExceeded)
                  <==> && p.status == Active && l.principal <= p.available && p.cap.Some?
                       && p.cap.value < p.totalBorrowed + l.principal)
  {
  }

  /** An update of a row that does not exist changes nothing and still succeeds. */
  function UpdatePool(db: Db, pool: nat, update: Pool -> Pool): Db {
    if pool < |db.pools| then db.(pools := db.pools[pool := update(db.pools[pool])]) else db
  }

  function Toggle(db: Db, pool: nat, status: PoolStatus): Db {
    UpdatePool(db, pool, (p: Pool) => p.(status := status))
  }

  predicate CapIsAllowed(cap: Option<int>) {
    cap.None? || cap.value > 0
  }

  function SetCap(db: Db, pool: nat, cap: Option<int>): Db {
    if CapIsAllowed(cap) then UpdatePool(db, pool, (p: Pool) => p.(cap := cap)) else db
  }

  /** `aprBps` is None when the form field is not a number. */
  function CheckNewPool(name: string, aprBps: Option<int>, cap: Option<int>): Result {
    if !CapIsAllowed(cap) then Failed(BadBorrowCap)
    else if name == "" then Failed(NameRequired)
    else if aprBps.None? || aprBps.value <= 0 || aprBps.value > 10_000 then Failed(BadApr)
    else Ok
  }

  function Create(db: Db, name: string, aprBps: Option<int>, cap: Option<int>): Db {
    if CheckNewPool(name, aprBps, cap).Ok? then db.(pools := db.pools + [Pool(Active, 0, 0, cap)]) else db
  }

  /** Toggling sets one status, of an existing pool, and nothing else. */
  lemma ToggleIsExact(db: Db, pool: nat, status: PoolStatus)
    ensures Toggle(db, pool, status).loans == db.loans && |Toggle(db, pool, status).pools| == |db.pools|
    ensures forall p | 0 <= p < |db.pools| ::
              var was, row := db.pools[p], Toggle(db, pool, status).pools[p];
              row == Pool(if p == pool then status else was.status, was.available, was.totalBorrowed, was.cap)
  {
  }

  /** A positive cap or none is stored in an existing pool; any other leaves the old one. */
  lemma SetCapIsExact(db: Db, pool: nat, cap: Option<int>)
    ensures SetCap(db, pool, cap).loans == db.loans && |SetCap(db, pool, cap).pools| == |db.pools|
    ensures forall p | 0 <= p < |db.pools| ::
              var was, row := db.pools[p], SetCap(db, pool, cap).pools[p];
              row == Pool(was.status, was.available, was.totalBorrowed,
                          if p == pool && (cap.Some? ==> 0 < cap.value) then cap else was.cap)
  {
  }

  /**
   A pool is created exactly when the cap is positive or none, the name is not empty and the rate
   is between 1 and 10,000 basis points: active, empty and with that cap, after the others.
   */
  lemma CreateIsExact(db: Db, name: string, aprBps: Option<int>, cap: Option<int>)
    ensures var r, after := CheckNewPool(name, aprBps, cap), Create(db, name, aprBps, cap);
            && (r == Failed(BadBorrowCap) <==> cap.Some? && cap.value <= 0)
            && (r == Failed(NameRequired) <==> (cap.Some? ==> 0 < cap.value) && name == "")
            && (r == Ok <==> && (cap.Some? ==> 0 < cap.value) && name != ""
                             && aprBps.Some? && 1 <= aprBps.value <= 10_000)
            && (r == Ok || r == Failed(BadBorrowCap) || r == Failed(NameRequired) || r == Failed(BadApr))
            && after == if r == Ok then Db(db.loans, db.pools + [Pool(Active, 0, 0, cap)]) else db
  {
  }

  // ------------------------------------------------------------------ auto-match

  ghost predicate InQueueIfPending(db: Db, queue: seq<nat>, l: nat)
    requires l < |db.loans|
  {
    db.loans[l].status == Requested ==> l in queue
  }

  /** Every pending loan, once. */
  ghost predicate IsPending(db: Db, queue: seq<nat>) {
    && (forall i | 0 <= i < |queue| :: queue[i] < |db.loans| && db.loans[queue[i]].status == Requested)
    && (forall l | 0 <= l < |db.loans| :: InQueueIfPending(db, queue, l))
    && (forall i, j | 0 <= i < j < |queue| :: queue[i] != queue[j])
  }

  /** Every active pool. */
  ghost predicate IsActive(db: Db, active: seq<nat>) {
    && (forall p | p in active :: p < |db.pools| && db.pools[p].status == Active)
    && (forall p | 0 <= p < |db.pools| && db.pools[p].status == Active :: p in active)
  }

  /** Oldest request first. */
  ghost predicate ByRequestTime(db: Db, queue: seq<nat>)
    requires IsPending(db, queue)
  {
    forall i, j | 0 <= i < j < |queue| :: db.loans[queue[i]].requestedAt <= db.loans[queue[j]].requestedAt
  }

  /** Most available liquidity first. */
  ghost predicate ByLiquidity(db: Db, active: seq<nat>) {
    forall i, j | 0 <= i < j < |active| && active[i] < |db.pools| && active[j] < |db.pools| ::
      active[i] != active[j] && db.pools[active[i]].available >= db.pools[active[j]].available
  }

  /** What the pass read before its loop, and which loans' paired updates will fail. */
  datatype Plan = Plan(read: Db, active: seq<nat>, failing: set<nat>)

  datatype Progress = Progress(db: Db, liquidity: map<nat, int>, matched: nat, skipped: nat)

  function Liquidity(liquidity: map<nat, int>, pool: nat): int {
    if pool in liquidity then liquidity[pool] else 0
  }

  function FirstFit(active: seq<nat>, liquidity: map<nat, int>, amount: int): (r: Option<nat>)
    ensures r.Some? ==> r.value in active && Liquidity(liquidity, r.value) >= amount
    ensures r.None? ==> forall p | p in active :: Liquidity(liquidity, p) < amount
  {
    if active == [] then None
    else if Liquidity(liquidity, active[0]) >= amount then Some(active[0])
    else FirstFit(active[1..], liquidity, amount)
  }

  /** No pool before the chosen one could pay. */
  lemma {:induction false} FirstFitIsFirst(active: seq<nat>, liquidity: map<nat, int>, amount: int) returns (i: nat)
    requires FirstFit(active, liquidity, amount).Some?
    ensures i < |active| && FirstFit(active, liquidity, amount) == Some(active[i])
    ensures forall j | 0 <= j < i :: Liquidity(liquidity, active[j]) < amount
  {
    if Liquidity(liquidity, active[0]) >= amount {
      i := 0;
    } else {
      var k := FirstFitIsFirst(active[1..], liquidity, amount);
      i := k + 1;
      forall j | 0 <= j < i ensures Liquidity(liquidity, active[j]) < amount {
        if j > 0 { assert active[j] == active[1..][j - 1]; }
      }
    }
  }

  /** The pool the loan is already assigned to if it can pay, else the first pool that can. */
  function Target(active: seq<nat>, liquidity: map<nat, int>, loan: Loan): Option<nat> {
    if loan.pool.Some? && Liquidity(liquidity, loan.pool.value) >= loan.principal then loan.pool
    else FirstFit(active, liquidity, loan.principal)
  }

  predicate Matches(plan: Plan, liquidity: map<nat, int>, l: nat)
    requires l < |plan.read.loans|
  {
    var target := Target(plan.active, liquidity, plan.read.loans[l]);
    && target.Some?
    && (target.value in plan.active && target.value < |plan.read.pools|
        ==> WithinCap(plan.read.pools[target.value], plan.read.loans[l].principal))
    && l !in plan.failing
  }

  /** One loan of the pass. */
  function MatchOne(plan: Plan, l: nat, at: Progress): Progress
    requires l < |plan.read.loans| == |at.db.loans| && |plan.read.pools| == |at.db.pools|
    requires ForeignKeys(plan.read) && forall p | p in plan.active :: p < |plan.read.pools|
  {
    if Matches(plan, at.liquidity, l) then
      var pool := Target(plan.active, at.liquidity, plan.read.loans[l]).value;
      Progress(Commit(at.db, l, pool),
               at.liquidity[pool := Liquidity(at.liquidity, pool) - plan.read.loans[l].principal],
               at.matched + 1, at.skipped)
    else
      at.(skipped := at.skipped + 1)
  }

  /** Row ids that were read exist. */
  ghost predicate InRange(plan: Plan, queue: seq<nat>) {
    && (forall i | 0 <= i < |queue| :: queue[i] < |plan.read.loans|)
    && ForeignKeys(plan.read) && (forall p | p in plan.active :: p < |plan.read.pools|)
  }

  /** The loop over the first `n` loans of the queue. */
  function Pass(plan: Plan, queue: seq<nat>, n: nat): (r: Progress)
    requires n <= |queue| && InRange(plan, queue)
    ensures |r.db.loans| == |plan.read.loans| && |r.db.pools| == |plan.read.pools|
  {
    if n == 0 then
      Progress(plan.read, map p | p in plan.active :: plan.read.pools[p].available, 0, 0)
    else
      MatchOne(plan, queue[n - 1], Pass(plan, queue, n - 1))
  }

  /** The whole action, early returns included. */
  function AutoMatch(plan: Plan, queue: seq<nat>): (r: Progress)
    requires InRange(plan, queue)
    ensures |r.db.loans| == |plan.read.loans| && |r.db.pools| == |plan.read.pools|
  {
    if queue == [] then Progress(plan.read, map[], 0, 0)
    else if plan.active == [] then Progress(plan.read, map[], 0, |queue|)
    else Pass(plan, queue, |queue|)
  }

  // ---------------------------------------------------------------- conservation

  /** Total principal of the loans approved on a pool. */
  function ApprovedOn(loans: seq<Loan>, pool: nat): int {
    if loans == [] then 0
    else
      var last := loans[|loans| - 1];
      ApprovedOn(loans[..|loans| - 1], pool)
      + if last.status == Approved && last.pool == Some(pool) then last.principal else 0
  }

  function Holding(loan: Loan, pool: nat): int {
    if loan.status == Approved && loan.pool == Some(pool) then loan.principal else 0
  }

  lemma {:induction false} ApprovedOnUpdate(loans: seq<Loan>, l: nat, loan: Loan, pool: nat)
    requires l < |loans|
    ensures ApprovedOn(loans[l := loan], pool)
         == ApprovedOn(loans, pool) - Holding(loans[l], pool) + Holding(loan, pool)
  {
    var n := |loans| - 1;
    if l < n {
      ApprovedOnUpdate(loans[..n], l, loan, pool);
      assert loans[l := loan][..n] == loans[..n][l := loan];
    } else {
      assert loans[l := loan][..n] == loans[..n];
    }
  }

  /** What a pool has available plus what is approved on it. */
  function Backing(db: Db, pool: nat): int
    requires pool < |db.pools|
  {
    db.pools[pool].available + ApprovedOn(db.loans, pool)
  }

  /** Approving a requested loan moves its principal and changes nothing else. */
  lemma CommitConserves(db: Db, loan: nat, target: nat, pool: nat)
    requires loan < |db.loans| && target < |db.pools| && pool < |db.pools|
    requires db.loans[loan].status == Requested
    ensures Backing(Commit(db, loan, target), pool) == Backing(db, pool)
  {
    ApprovedOnUpdate(db.loans, loan, db.loans[loan].(status := Approved, pool := Some(target)), pool);
  }

  // ------------------------------------------------------ invariants of one pass

  ghost predicate PlanIsRead(plan: Plan, queue: seq<nat>) {
    && InRange(plan, queue)
    && IsPending(plan.read, queue) && IsActive(plan.read, plan.active)
  }

  /** The loan rows a pass has not reached yet are as they were read, and the others change once. */
  lemma {:induction false} PassTouches(plan: Plan, queue: seq<nat>, n: nat, l: nat)
    requires PlanIsRead(plan, queue) && n <= |queue| && l < |plan.read.loans|
    ensures (forall i | 0 <= i < n :: queue[i] != l) ==> Pass(plan, queue, n).db.loans[l] == plan.read.loans[l]
    ensures Pass(plan, queue, n).db.loans[l].principal == plan.read.loans[l].principal
    ensures plan.read.loans[l].status != Requested ==> Pass(plan, queue, n).db.loans[l] == plan.read.loans[l]
  {
    if n > 0 {
      PassTouches(plan, queue, n - 1, l);
    }
  }

  /** A target of a loan with a positive principal is an active pool that can pay for it. */
  lemma TargetIsActive(plan: Plan, liquidity: map<nat, int>, loan: Loan)
    requires 0 < loan.principal && (forall p | p in liquidity :: p in plan.active)
    ensures Target(plan.active, liquidity, loan).Some? ==>
              var p := Target(plan.active, liquidity, loan).value;
              p in plan.active && Liquidity(liquidity, p) >= loan.principal
    ensures Target(plan.active, liquidity, loan).None? ==>
              forall p | p in plan.active :: Liquidity(liquidity, p) < loan.principal
  {
  }

  /**
   What holds after every loan of a pass: the in-memory liquidity is the database's, for every
   active pool; nothing but the available liquidity of active pools changed, and that only
   went down and never below zero.
   */
  ghost predicate Ledger(plan: Plan, at: Progress)
    requires forall p | p in plan.active :: p < |plan.read.pools|
    requires |at.db.pools| == |plan.read.pools|
  {
    && at.liquidity.Keys == (set p | p in plan.active)
    && (forall p | p in plan.active :: at.liquidity[p] == at.db.pools[p].available)
    && (forall p | 0 <= p < |plan.read.pools| :: Drained(plan.read.pools[p], at.db.pools[p], p in plan.active))
  }

  ghost predicate Drained(was: Pool, row: Pool, active: bool) {
    && row.(available := was.available) == was
    && row.available <= was.available
    && (!active ==> row == was)
    && (0 <= was.available ==> 0 <= row.available)
  }

  lemma StepKeepsTheLedger(plan: Plan, l: nat, at: Progress)
    requires ForeignKeys(plan.read) && forall p | p in plan.active :: p < |plan.read.pools|
    requires l < |plan.read.loans| == |at.db.loans| && |plan.read.pools| == |at.db.pools|
    requires 0 < plan.read.loans[l].principal == at.db.loans[l].principal
    requires Ledger(plan, at)
    ensures Ledger(plan, MatchOne(plan, l, at))
    ensures MatchOne(plan, l, at).matched + MatchOne(plan, l, at).skipped == at.matched + at.skipped + 1
  {
    var loan := plan.read.loans[l];
    TargetIsActive(plan, at.liquidity, loan);
    if Matches(plan, at.liquidity, l) {
      var pool := Target(plan.active, at.liquidity, loan).value;
      var after := MatchOne(plan, l, at);
      assert pool in at.liquidity;
      assert after.liquidity.Keys == at.liquidity.Keys;
      assert at.liquidity[pool] == at.db.pools[pool].available;
      assert Drained(plan.read.pools[pool], at.db.pools[pool], true);
    }
  }

  lemma {:induction false} PassKeepsTheLedger(plan: Plan, queue: seq<nat>, n: nat)
    requires PlanIsRead(plan, queue) && PositivePrincipals(plan.read) && n <= |queue|
    ensures Ledger(plan, Pass(plan, queue, n))
    ensures Pass(plan, queue, n).matched + Pass(plan, queue, n).skipped == n
  {
    if n > 0 {
      PassKeepsTheLedger(plan, queue, n - 1);
      PassTouches(plan, queue, n - 1, queue[n - 1]);
      var l, at := queue[n - 1], Pass(plan, queue, n - 1);
      StepKeepsTheLedger(plan, l, at);
      assert Pass(plan, queue, n) == MatchOne(plan, l, at);
    }
  }

  /** The early returns of the action give what the loop would. */
  lemma {:induction false} EarlyReturnsAgree(plan: Plan, queue: seq<nat>, n: nat)
    requires PlanIsRead(plan, queue) && PositivePrincipals(plan.read) && n <= |queue|
    requires plan.active == []
    ensures Pass(plan, queue, n).db == plan.read
    ensures Pass(plan, queue, n).matched == 0 && Pass(plan, queue, n).skipped == n
  {
    if n > 0 {
      EarlyReturnsAgree(plan, queue, n - 1);
      PassKeepsTheLedger(plan, queue, n - 1);
      NoPoolNoMatch(plan, queue[n - 1], Pass(plan, queue, n - 1));
    }
  }

  lemma NoPoolNoMatch(plan: Plan, l: nat, at: Progress)
    requires ForeignKeys(plan.read) && plan.active == []
    requires l < |plan.read.loans| == |at.db.loans| && |plan.read.pools| == |at.db.pools|
    requires 0 < plan.read.loans[l].principal && Ledger(plan, at)
    ensures MatchOne(plan, l, at) == at.(skipped := at.skipped + 1)
  {
    TargetIsActive(plan, at.liquidity, plan.read.loans[l]);
  }

  lemma AutoMatchIsThePass(plan: Plan, queue: seq<nat>)
    requires PlanIsRead(plan, queue) && PositivePrincipals(plan.read)
    ensures AutoMatch(plan, queue).db == Pass(plan, queue, |queue|).db
    ensures AutoMatch(plan, queue).matched == Pass(plan, queue, |queue|).matched
    ensures AutoMatch(plan, queue).skipped == Pass(plan, queue, |queue|).skipped
  {
    if plan.active == [] { EarlyReturnsAgree(plan, queue, |queue|); }
  }

  lemma StepConserves(plan: Plan, l: nat, at: Progress, pool: nat)
    requires ForeignKeys(plan.read) && forall p | p in plan.active :: p < |plan.read.pools|
    requires l < |plan.read.loans| == |at.db.loans| && |plan.read.pools| == |at.db.pools|
    requires at.db.loans[l].status == Requested && pool < |at.db.pools|
    ensures Backing(MatchOne(plan, l, at).db, pool) == Backing(at.db, pool)
  {
    if Matches(plan, at.liquidity, l) {
      CommitConserves(at.db, l, Target(plan.active, at.liquidity, plan.read.loans[l]).value, pool);
    }
  }

  /** A pass moves principal from available liquidity to approved loans, and creates or loses none. */
  lemma {:induction false} PassConserves(plan: Plan, queue: seq<nat>, n: nat, pool: nat)
    requires PlanIsRead(plan, queue) && n <= |queue| && pool < |plan.read.pools|
    ensures Backing(Pass(plan, queue, n).db, pool) == Backing(plan.read, pool)
  {
    if n > 0 {
      PassConserves(plan, queue, n - 1, pool);
      PassTouches(plan, queue, n - 1, queue[n - 1]);
      StepConserves(plan, queue[n - 1], Pass(plan, queue, n - 1), pool);
    }
  }

  /** How many of the first `n` loans of the queue are approved. */
  function ApprovedAmong(db: Db, queue: seq<nat>, n: nat): nat
    requires n <= |queue| && forall i | 0 <= i < |queue| :: queue[i] < |db.loans|
  {
    if n == 0 then 0
    else ApprovedAmong(db, queue, n - 1) + if db.loans[queue[n - 1]].status == Approved then 1 else 0
  }

  lemma {:induction false} ApprovedAmongOthers(before: Db, after: Db, queue: seq<nat>, n: nat)
    requires n <= |queue|
    requires |before.loans| == |after.loans| && forall i | 0 <= i < |queue| :: queue[i] < |before.loans|
    requires forall i | 0 <= i < n :: after.loans[queue[i]] == before.loans[queue[i]]
    ensures ApprovedAmong(after, queue, n) == ApprovedAmong(before, queue, n)
  {
    if n > 0 { ApprovedAmongOthers(before, after, queue, n - 1); }
  }

  ghost predicate IsCounted(at: Progress, queue: seq<nat>, n: nat)
    requires n <= |queue| && forall i | 0 <= i < |queue| :: queue[i] < |at.db.loans|
  {
    at.matched == ApprovedAmong(at.db, queue, n) && at.skipped == n - ApprovedAmong(at.db, queue, n)
  }

  lemma OneMoreIsCounted(at: Progress, after: Progress, queue: seq<nat>, n: nat)
    requires n < |queue|
    requires |at.db.loans| == |after.db.loans| && forall i | 0 <= i < |queue| :: queue[i] < |at.db.loans|
    requires forall i | 0 <= i < n :: after.db.loans[queue[i]] == at.db.loans[queue[i]]
    requires if after.db.loans[queue[n]].status == Approved
             then after.matched == at.matched + 1 && after.skipped == at.skipped
             else after.matched == at.matched && after.skipped == at.skipped + 1
    requires IsCounted(at, queue, n)
    ensures IsCounted(after, queue, n + 1)
  {
    ApprovedAmongOthers(at.db, after.db, queue, n);
  }

  /** `matched` counts the loans that were approved, and `skipped` the others. */
  lemma {:induction false} MatchedAreApproved(plan: Plan, queue: seq<nat>, n: nat)
    requires PlanIsRead(plan, queue) && n <= |queue|
    ensures IsCounted(Pass(plan, queue, n), queue, n)
  {
    if n > 0 {
      MatchedAreApproved(plan, queue, n - 1);
      TurnIsCounted(plan, queue, n - 1);
    }
  }

  lemma TurnIsCounted(plan: Plan, queue: seq<nat>, n: nat)
    requires PlanIsRead(plan, queue) && n < |queue| && IsCounted(Pass(plan, queue, n), queue, n)
    ensures IsCounted(Pass(plan, queue, n + 1), queue, n + 1)
  {
    NextIsCounted(plan, queue, n);
    OneMoreIsCounted(Pass(plan, queue, n), Pass(plan, queue, n + 1), queue, n);
  }

  lemma NextIsCounted(plan: Plan, queue: seq<nat>, n: nat)
    requires PlanIsRead(plan, queue) && n < |queue|
    ensures var at, after := Pass(plan, queue, n), Pass(plan, queue, n + 1);
            && (forall i | 0 <= i < n :: after.db.loans[queue[i]] == at.db.loans[queue[i]])
            && (if after.db.loans[queue[n]].status == Approved
                then after.matched == at.matched + 1 && after.skipped == at.skipped
                else after.matched == at.matched && after.skipped == at.skipped + 1)
  {
    PassTouches(plan, queue, n, queue[n]);
  }

  /** The oldest request, if it names no pool, goes to a pool with the most liquidity, if that covers it. */
  lemma OldestGoesFirst(plan: Plan, queue: seq<nat>)
    requires PlanIsRead(plan, queue) && ByRequestTime(plan.read, queue) && ByLiquidity(plan.read, plan.active)
    requires queue != [] && plan.read.loans[queue[0]].pool.None? && plan.active != []
    ensures forall l | 0 <= l < |plan.read.loans| && plan.read.loans[l].status == Requested ::
              plan.read.loans[queue[0]].requestedAt <= plan.read.loans[l].requestedAt
    ensures var amount, target := plan.read.loans[queue[0]].principal,
                                  Target(plan.active, Pass(plan, queue, 0).liquidity, plan.read.loans[queue[0]]);
            && (target.Some? ==> forall p | p in plan.active :: plan.read.pools[p].available
                                                               <= plan.read.pools[plan.active[0]].available)
            && (target.Some? <==> plan.read.pools[plan.active[0]].available >= amount)
            && (target.Some? ==> target == Some(plan.active[0]))
  {
    var liquidity := Pass(plan, queue, 0).liquidity;
    assert plan.active[0] in plan.active;
    forall p | p in plan.active
      ensures plan.read.pools[p].available <= plan.read.pools[plan.active[0]].available
      ensures Liquidity(liquidity, p) == plan.read.pools[p].available
    {
      var i :| 0 <= i < |plan.active| && plan.active[i] == p;
    }
    forall l | 0 <= l < |plan.read.loans| && plan.read.loans[l].status == Requested
      ensures plan.read.loans[queue[0]].requestedAt <= plan.read.loans[l].requestedAt
    {
      assert InQueueIfPending(plan.read, queue, l);
      var i :| 0 <= i < |queue| && queue[i] == l;
    }
  }

  // ------------------------------------------------------------ what a pass decides

  /** The pool the loan is assigned to is active and has enough left. */
  ghost predicate AssignedCanPay(active: seq<nat>, pools: seq<Pool>, loan: Loan) {
    && loan.pool.Some? && loan.pool.value in active && loan.pool.value < |pools|
    && loan.principal <= pools[loan.pool.value].available
  }

  ghost predicate CanPayAt(active: seq<nat>, pools: seq<Pool>, i: nat, amount: int)
    requires i < |active|
  {
    active[i] < |pools| && amount <= pools[active[i]].available
  }

  /** Number `i` in the order of the active pools is the first that has enough left. */
  ghost predicate FirstThatCanPay(active: seq<nat>, pools: seq<Pool>, i: nat, amount: int) {
    && i < |active| && CanPayAt(active, pools, i, amount)
    && forall j | 0 <= j < i :: !CanPayAt(active, pools, j, amount)
  }

  /** The pool a loan is for: its own if that can pay, otherwise the first active one that can. */
  ghost predicate IsFor(active: seq<nat>, pools: seq<Pool>, loan: Loan, p: nat) {
    if AssignedCanPay(active, pools, loan) then loan.pool == Some(p)
    else exists i: nat | i < |active| && active[i] == p :: FirstThatCanPay(active, pools, i, loan.principal)
  }

  lemma TargetIsWhatItIsFor(active: seq<nat>, liquidity: map<nat, int>, pools: seq<Pool>, loan: Loan, p: nat)
    requires 0 < loan.principal && forall q | q in active :: q < |pools|
    requires forall q: nat :: Liquidity(liquidity, q) == if q in active && q < |pools| then pools[q].available else 0
    ensures Target(active, liquidity, loan) == Some(p) <==> IsFor(active, pools, loan, p)
  {
    if !AssignedCanPay(active, pools, loan) {
      var amount := loan.principal;
      assert forall i | 0 <= i < |active| :: active[i] in active;
      if FirstFit(active, liquidity, amount).Some? {
        var i := FirstFitIsFirst(active, liquidity, amount);
        assert FirstThatCanPay(active, pools, i, amount);
        assert CanPayAt(active, pools, i, amount);
        assert forall j | 0 <= j < |active| && FirstThatCanPay(active, pools, j, amount) :: j == i;
      } else {
        forall i | 0 <= i < |active| ensures !CanPayAt(active, pools, i, amount) {}
      }
    }
  }

  /** A loan is approved on `p`: `p` is the pool it is for, its cap has room, and the update succeeds. */
  ghost predicate GoesTo(plan: Plan, pools: seq<Pool>, l: nat, p: nat)
    requires l < |plan.read.loans|
  {
    var loan := plan.read.loans[l];
    && p < |plan.read.pools| && IsFor(plan.active, pools, loan, p) && l !in plan.failing
    && (plan.read.pools[p].cap.Some? ==>
          plan.read.pools[p].totalBorrowed + loan.principal <= plan.read.pools[p].cap.value)
  }

  /** The database after loan `l` has gone to pool `p`. */
  ghost predicate WentTo(before: Db, l: nat, p: nat, after: Db)
    requires l < |before.loans| && p < |before.pools|
  {
    var loan, pool := before.loans[l], before.pools[p];
    && after.loans == before.loans[l := Loan(Approved, loan.principal, Some(p), loan.requestedAt)]
    && after.pools
       == before.pools[p := Pool(pool.status, pool.available - loan.principal, pool.totalBorrowed, pool.cap)]
  }

  lemma StepIsExact(plan: Plan, l: nat, at: Progress, p: nat)
    requires ForeignKeys(plan.read) && forall q | q in plan.active :: q < |plan.read.pools|
    requires l < |plan.read.loans| == |at.db.loans| && |plan.read.pools| == |at.db.pools|
    requires 0 < plan.read.loans[l].principal && Ledger(plan, at) && at.db.loans[l] == plan.read.loans[l]
    requires p < |plan.read.pools| && at.db.loans[l].status == Requested
    ensures GoesTo(plan, at.db.pools, l, p) <==> WentTo(at.db, l, p, MatchOne(plan, l, at).db)
    ensures MatchOne(plan, l, at).db == at.db
         || exists q: nat | q < |plan.read.pools| :: GoesTo(plan, at.db.pools, l, q)
  {
    LiquidityOfTheLedger(plan, at);
    TargetIsWhatItIsFor(plan.active, at.liquidity, at.db.pools, plan.read.loans[l], p);
    TargetIsActive(plan, at.liquidity, plan.read.loans[l]);
    var target := Target(plan.active, at.liquidity, plan.read.loans[l]);
    if target.Some? {
      TargetIsWhatItIsFor(plan.active, at.liquidity, at.db.pools, plan.read.loans[l], target.value);
    }
    if Matches(plan, at.liquidity, l) {
      var after := MatchOne(plan, l, at).db;
      assert after.loans[l].pool == target;
      assert GoesTo(plan, at.db.pools, l, target.value) && WentTo(at.db, l, target.value, after);
    } else {
      assert MatchOne(plan, l, at).db.loans[l].status == Requested;
    }
  }

  lemma LiquidityOfTheLedger(plan: Plan, at: Progress)
    requires (forall p | p in plan.active :: p < |plan.read.pools|) && |at.db.pools| == |plan.read.pools|
    requires Ledger(plan, at)
    ensures forall q: nat ::
              Liquidity(at.liquidity, q)
              == if q in plan.active && q < |at.db.pools| then at.db.pools[q].available else 0
  {
  }

  /**
   Exactly what one turn of the pass does: the loan goes to a pool if and only if that is the one
   it is assigned to and can pay, or, if there is no such one, the first active pool that can,
   its own cap has room and the update succeeds. In every other case nothing changes.
   */
  lemma TurnIsExact(plan: Plan, queue: seq<nat>, n: nat, p: nat)
    requires PlanIsRead(plan, queue) && PositivePrincipals(plan.read) && n < |queue| && p < |plan.read.pools|
    ensures GoesTo(plan, Pass(plan, queue, n).db.pools, queue[n], p)
       <==> WentTo(Pass(plan, queue, n).db, queue[n], p, Pass(plan, queue, n + 1).db)
    ensures Pass(plan, queue, n + 1).db == Pass(plan, queue, n).db
         || exists q: nat | q < |plan.read.pools| :: GoesTo(plan, Pass(plan, queue, n).db.pools, queue[n], q)
  {
    PassKeepsTheLedger(plan, queue, n);
    PassTouches(plan, queue, n, queue[n]);
    StepIsExact(plan, queue[n], Pass(plan, queue, n), p);
  }

  /** The pool a loan was approved on could pay for it, and the loan passed that pool's own cap test. */
  ghost predicate ApprovedProperly(plan: Plan, l: nat, now: Loan, pools: seq<Pool>)
    requires l < |plan.read.loans| && |pools| == |plan.read.pools|
  {
    && now.pool.Some? && now.pool.value in plan.active && now.pool.value < |plan.read.pools|
    && WithinCap(plan.read.pools[now.pool.value], plan.read.loans[l].principal)
    && plan.read.loans[l].principal <= pools[now.pool.value].available
  }

  /** Why a loan may still be pending: its update failed, a cap stood in the way, or no pool can pay. */
  ghost predicate PendingForAReason(plan: Plan, l: nat, pools: seq<Pool>)
    requires l < |plan.read.loans| && |pools| == |plan.read.pools|
  {
    var amount := plan.read.loans[l].principal;
    || l in plan.failing
    || (exists p | p in plan.active && p < |plan.read.pools| ::
          !WithinCap(plan.read.pools[p], amount) && amount <= pools[p].available)
    || (forall p | p in plan.active && p < |plan.read.pools| :: pools[p].available < amount)
  }

  /** Loan `l` was decided for a good reason, given the pools at the moment the pass reached it. */
  ghost predicate Decided(plan: Plan, l: nat, pools: seq<Pool>, row: Loan)
    requires l < |plan.read.loans| && |pools| == |plan.read.pools|
  {
    if row.status == Approved then ApprovedProperly(plan, l, row, pools) && l !in plan.failing
    else row == plan.read.loans[l] && PendingForAReason(plan, l, pools)
  }

  /** What the pass does with the loan it reaches. */
  lemma StepDecides(plan: Plan, queue: seq<nat>, n: nat)
    requires PlanIsRead(plan, queue) && PositivePrincipals(plan.read) && n < |queue|
    ensures Decided(plan, queue[n], Pass(plan, queue, n).db.pools, Pass(plan, queue, n + 1).db.loans[queue[n]])
  {
    var l, at := queue[n], Pass(plan, queue, n);
    PassTouches(plan, queue, n, l);
    PassKeepsTheLedger(plan, queue, n);
    TargetIsActive(plan, at.liquidity, plan.read.loans[l]);
    assert forall p | p in plan.active :: Liquidity(at.liquidity, p) == at.db.pools[p].available;
  }

  /** A later step does not touch a loan that was reached before. */
  lemma DecidedStays(plan: Plan, queue: seq<nat>, n: nat, l: nat)
    requires PlanIsRead(plan, queue) && n < |queue| && l < |plan.read.loans| && l != queue[n]
    ensures Pass(plan, queue, n + 1).db.loans[l] == Pass(plan, queue, n).db.loans[l]
  {
  }

  /**
   First-fit completeness. After a pass every loan it reached is either approved on an active
   pool that had enough and whose own cap test it passed, or still pending, and then its update
   failed, or the cap of a pool that had enough stood in the way, or no active pool had enough.
   All of it is judged by what the pools had left when the loan was reached.
   */
  lemma {:induction false} PassIsComplete(plan: Plan, queue: seq<nat>, n: nat, i: nat)
    requires PlanIsRead(plan, queue) && PositivePrincipals(plan.read) && i < n <= |queue|
    ensures Decided(plan, queue[i], Pass(plan, queue, i).db.pools, Pass(plan, queue, n).db.loans[queue[i]])
  {
    if i == n - 1 {
      StepDecides(plan, queue, i);
    } else {
      PassIsComplete(plan, queue, n - 1, i);
      DecidedStays(plan, queue, n - 1, queue[i]);
    }
  }

  /** No pool has more in `later` than in `earlier`. */
  ghost predicate OnlyDrained(earlier: seq<Pool>, later: seq<Pool>) {
    |earlier| == |later| && forall p | 0 <= p < |earlier| :: later[p].available <= earlier[p].available
  }

  lemma PoolsOnlyDrain(plan: Plan, queue: seq<nat>, n: nat)
    requires PlanIsRead(plan, queue) && PositivePrincipals(plan.read) && n < |queue|
    ensures OnlyDrained(Pass(plan, queue, n).db.pools, Pass(plan, queue, n + 1).db.pools)
  {
    PassTouches(plan, queue, n, queue[n]);
  }

  lemma DrainedFurther(a: seq<Pool>, b: seq<Pool>, c: seq<Pool>)
    requires OnlyDrained(a, b) && OnlyDrained(b, c)
    ensures OnlyDrained(a, c)
  {
  }

  lemma DrainedByOneMore(plan: Plan, queue: seq<nat>, n: nat, earlier: seq<Pool>)
    requires PlanIsRead(plan, queue) && PositivePrincipals(plan.read) && n < |queue|
    requires OnlyDrained(earlier, Pass(plan, queue, n).db.pools)
    ensures OnlyDrained(earlier, Pass(plan, queue, n + 1).db.pools)
  {
    PoolsOnlyDrain(plan, queue, n);
    DrainedFurther(earlier, Pass(plan, queue, n).db.pools, Pass(plan, queue, n + 1).db.pools);
  }

  lemma NothingDrained(pools: seq<Pool>)
    ensures OnlyDrained(pools, pools)
  {
  }

  lemma {:induction false} DrainedLater(plan: Plan, queue: seq<nat>, i: nat, n: nat)
    requires PlanIsRead(plan, queue) && PositivePrincipals(plan.read) && i <= n <= |queue|
    ensures OnlyDrained(Pass(plan, queue, i).db.pools, Pass(plan, queue, n).db.pools)
    decreases n
  {
    if i == n {
      NothingDrained(Pass(plan, queue, i).db.pools);
    } else {
      DrainedLater(plan, queue, i, n - 1);
      DrainedByOneMore(plan, queue, n - 1, Pass(plan, queue, i).db.pools);
    }
  }

  /** With no failed update and no caps, nothing is left that an active pool could cover. */
  lemma NothingCoverableIsLeft(plan: Plan, queue: seq<nat>, l: nat, p: nat)
    requires PlanIsRead(plan, queue) && PositivePrincipals(plan.read) && plan.failing == {}
    requires forall q | q in plan.active :: plan.read.pools[q].cap.None?
    requires l < |plan.read.loans| && p in plan.active
    ensures var after := Pass(plan, queue, |queue|).db;
            after.loans[l].status == Requested ==> after.pools[p].available < after.loans[l].principal
  {
    if plan.read.loans[l].status == Requested {
      assert InQueueIfPending(plan.read, queue, l);
      var i :| 0 <= i < |queue| && queue[i] == l;
      PassIsComplete(plan, queue, |queue|, i);
      DrainedLater(plan, queue, i, |queue|);
    } else {
      PassTouches(plan, queue, |queue|, l);
    }
  }

  lemma {:induction false} RowIsFinal(plan: Plan, queue: seq<nat>, i: nat, n: nat)
    requires PlanIsRead(plan, queue) && i < n <= |queue|
    ensures Pass(plan, queue, n).db.loans[queue[i]] == Pass(plan, queue, i + 1).db.loans[queue[i]]
    decreases n
  {
    if i + 1 < n {
      RowIsFinal(plan, queue, i, n - 1);
      DecidedStays(plan, queue, n - 1, queue[i]);
    }
  }

  /**
   A pending loan assigned to an active pool that still has its principal when the loan is
   reached, and room for it under its cap, is approved on that pool by the whole pass.
   */
  lemma AssignedPoolComesFirst(plan: Plan, queue: seq<nat>, n: nat, p: nat)
    requires PlanIsRead(plan, queue) && PositivePrincipals(plan.read) && n < |queue|
    requires queue[n] !in plan.failing && plan.read.loans[queue[n]].pool == Some(p) && p in plan.active
    requires plan.read.loans[queue[n]].principal <= Pass(plan, queue, n).db.pools[p].available
    requires plan.read.pools[p].cap.Some? ==>
               plan.read.pools[p].totalBorrowed + plan.read.loans[queue[n]].principal <= plan.read.pools[p].cap.value
    ensures var loan := plan.read.loans[queue[n]];
            Pass(plan, queue, |queue|).db.loans[queue[n]]
            == Loan(Approved, loan.principal, Some(p), loan.requestedAt)
  {
    TurnIsExact(plan, queue, n, p);
    PassTouches(plan, queue, n, queue[n]);
    RowIsFinal(plan, queue, n, |queue|);
  }

  lemma StepMatchesNothing(plan: Plan, l: nat, at: Progress)
    requires ForeignKeys(plan.read) && forall p | p in plan.active :: p < |plan.read.pools|
    requires l < |plan.read.loans| == |at.db.loans| && |plan.read.pools| == |at.db.pools|
    requires 0 < plan.read.loans[l].principal && Ledger(plan, at)
    requires forall p | p in plan.active :: at.db.pools[p].available < plan.read.loans[l].principal
    ensures MatchOne(plan, l, at) == at.(skipped := at.skipped + 1)
  {
    TargetIsActive(plan, at.liquidity, plan.read.loans[l]);
  }

  /** A pass over loans none of which any active pool can pay for changes nothing. */
  lemma {:induction false} NothingToMatch(plan: Plan, queue: seq<nat>, n: nat)
    requires PlanIsRead(plan, queue) && PositivePrincipals(plan.read) && n <= |queue|
    requires forall i, p | 0 <= i < |queue| && p in plan.active ::
               plan.read.pools[p].available < plan.read.loans[queue[i]].principal
    ensures Pass(plan, queue, n).db == plan.read && Pass(plan, queue, n).matched == 0
  {
    if n > 0 {
      NothingToMatch(plan, queue, n - 1);
      NextMatchesNothing(plan, queue, n - 1);
    }
  }

  lemma NextMatchesNothing(plan: Plan, queue: seq<nat>, n: nat)
    requires PlanIsRead(plan, queue) && PositivePrincipals(plan.read) && n < |queue|
    requires Pass(plan, queue, n).db == plan.read
    requires forall p | p in plan.active :: plan.read.pools[p].available < plan.read.loans[queue[n]].principal
    ensures Pass(plan, queue, n + 1).db == plan.read
    ensures Pass(plan, queue, n + 1).matched == Pass(plan, queue, n).matched
  {
    PassKeepsTheLedger(plan, queue, n);
    StepMatchesNothing(plan, queue[n], Pass(plan, queue, n));
  }

  /** With no caps and no failures, running auto-match again at once matches nothing. */
  lemma SecondPassMatchesNothing(plan: Plan, queue: seq<nat>, again: Plan, queueAgain: seq<nat>)
    requires PlanIsRead(plan, queue) && PositivePrincipals(plan.read) && plan.failing == {}
    requires forall q | q in plan.active :: plan.read.pools[q].cap.None?
    requires again.read == AutoMatch(plan, queue).db && PlanIsRead(again, queueAgain)
    ensures AutoMatch(again, queueAgain).db == again.read && AutoMatch(again, queueAgain).matched == 0
  {
    AutoMatchIsThePass(plan, queue);
    PassKeepsTheLedger(plan, queue, |queue|);
    PrincipalsStay(plan, queue);
    forall i, p | 0 <= i < |queueAgain| && p in again.active
      ensures again.read.pools[p].available < again.read.loans[queueAgain[i]].principal
    {
      assert Drained(plan.read.pools[p], again.read.pools[p], p in plan.active);
      assert p in plan.active;
      NothingCoverableIsLeft(plan, queue, queueAgain[i], p);
    }
    NothingToMatch(again, queueAgain, |queueAgain|);
    AutoMatchIsThePass(again, queueAgain);
  }

  lemma PrincipalsStay(plan: Plan, queue: seq<nat>)
    requires PlanIsRead(plan, queue) && PositivePrincipals(plan.read)
    ensures PositivePrincipals(Pass(plan, queue, |queue|).db)
  {
    forall l | 0 <= l < |plan.read.loans|
      ensures Pass(plan, queue, |queue|).db.loans[l].principal > 0
    {
      PassTouches(plan, queue, |queue|, l);
    }
  }
}
