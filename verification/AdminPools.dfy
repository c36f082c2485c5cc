/**
 The admin actions of app/actions/admin-pools.ts over the two tables, updated in place. What
 the queries return is a parameter with the contract of its ORDER BY; the loans whose paired
 updates throw are a parameter too. Each method is tied to its step in PoolLedger.dfy, whose
 runs are treated in PoolRuns.dfy.
 */
module AdminPools {
  import opened Common
  import opened PoolLedger

  class PoolDatabase {
    var loans: seq<Loan>
    var pools: seq<Pool>

    function Rows(): Db
      reads this
    {
      Db(loans, pools)
    }

    constructor (loans: seq<Loan>, pools: seq<Pool>)
      ensures Rows() == Db(loans, pools)
    {
      this.loans, this.pools := loans, pools;
    }

    method CreateLendingPool(name: string, aprBps: Option<int>, borrowCap: Option<int>) returns (r: Result)
      modifies this
      ensures r == CheckNewPool(name, aprBps, borrowCap)
      ensures Rows() == Create(old(Rows()), name, aprBps, borrowCap)
    {
      if borrowCap.Some? && borrowCap.value <= 0 {
        return Failed(BadBorrowCap);
      }
      if name == "" {
        return Failed(NameRequired);
      }
      if aprBps.None? || aprBps.value <= 0 || aprBps.value > 10_000 {
        return Failed(BadApr);
      }
      pools := pools + [Pool(Active, 0, 0, borrowCap)];
      return Ok;
    }

    method TogglePoolStatus(poolId: nat, newStatus: PoolStatus) returns (r: Result)
      modifies this
      ensures r == Ok && Rows() == Toggle(old(Rows()), poolId, newStatus)
    {
      if poolId < |pools| {
        pools := pools[poolId := pools[poolId].(status := newStatus)];
      }
      return Ok;
    }

    method SetPoolBorrowCap(poolId: nat, borrowCap: Option<int>) returns (r: Result)
      modifies this
      ensures r == if CapIsAllowed(borrowCap) then Ok else Failed(BadBorrowCap)
      ensures Rows() == SetCap(old(Rows()), poolId, borrowCap)
    {
      if borrowCap.Some? && borrowCap.value <= 0 {
        return Failed(BadBorrowCap);
      }
      if poolId < |pools| {
        pools := pools[poolId := pools[poolId].(cap := borrowCap)];
      }
      return Ok;
    }

    method ApproveLoan(loanId: nat, poolId: nat) returns (r: Result)
      modifies this
      ensures r == CheckApproval(old(Rows()), loanId, poolId)
      ensures Rows() == Approve(old(Rows()), loanId, poolId)
    {
      if loanId >= |loans| {
        return Failed(LoanNotFound);
      }
      var loan := loans[loanId];
      if loan.status != Requested {
        return Failed(LoanIsAlready(loan.status));
      }
      if poolId >= |pools| {
        return Failed(PoolNotFound);
      }
      var pool := pools[poolId];
      if pool.status != Active {
        return Failed(PoolNotActive);
      }
      if loan.principal > pool.available {
        return Failed(InsufficientLiquidity);
      }
      if pool.cap.Some? && pool.totalBorrowed + loan.principal > pool.cap.value {
        return Failed(CapExceeded);
      }
      Reserve(loanId, poolId, loan.principal);
      return Ok;
    }

    /** The paired updates, which read the row again when they subtract. */
    method Reserve(loanId: nat, poolId: nat, amount: int)
      requires loanId < |loans| && poolId < |pools| && amount == loans[loanId].principal
      modifies this
      ensures Rows() == Commit(old(Rows()), loanId, poolId)
    {
      loans := loans[loanId := loans[loanId].(status := Approved, pool := Some(poolId))];
      pools := pools[poolId := pools[poolId].(available := pools[poolId].available - amount)];
    }

    /** The inner loop over the pools, in the order they were read. */
    method FindFirstFit(active: seq<nat>, poolLiquidity: map<nat, int>, amount: int) returns (target: Option<nat>)
      ensures target == FirstFit(active, poolLiquidity, amount)
    {
      var i := 0;
      while i < |active|
        invariant i <= |active|
        invariant FirstFit(active, poolLiquidity, amount) == FirstFit(active[i..], poolLiquidity, amount)
      {
        if Liquidity(poolLiquidity, active[i]) >= amount {
          return Some(active[i]);
        }
        assert active[i..][1..] == active[i + 1..];
        i := i + 1;
      }
      return None;
    }

    /** The body of the loop, for one pending loan as it was read before the loop. */
    method MatchLoan(ghost plan: Plan, l: nat, loan: Loan, activePools: seq<Pool>, active: seq<nat>,
                     failing: set<nat>, ghost at: Progress, poolLiquidity: map<nat, int>)
      returns (liquidityAfter: map<nat, int>, isMatched: bool)
      requires plan.active == active && plan.failing == failing && plan.read.pools == activePools
      requires ForeignKeys(plan.read) && forall p | p in active :: p < |activePools|
      requires l < |plan.read.loans| == |loans| && |activePools| == |pools|
      requires plan.read.loans[l] == loan && loans[l].principal == loan.principal
      requires at.db == Rows() && at.liquidity == poolLiquidity
      modifies this
      ensures Progress(Rows(), liquidityAfter,
                       at.matched + (if isMatched then 1 else 0), at.skipped + (if isMatched then 0 else 1))
           == MatchOne(plan, l, at)
    {
      liquidityAfter, isMatched := poolLiquidity, false;
      var amount := loan.principal;
      var target: Option<nat>;
      if loan.pool.Some? && Liquidity(poolLiquidity, loan.pool.value) >= amount {
        target := loan.pool;
      } else {
        target := FindFirstFit(active, poolLiquidity, amount);
      }
      if target.None? {
        return;
      }
      if target.value in active {
        var targetPool := activePools[target.value];
        if targetPool.cap.Some? && targetPool.totalBorrowed + amount > targetPool.cap.value {
          return;
        }
      }
      if l in failing {
        return;
      }
      Reserve(l, target.value, amount);
      liquidityAfter := poolLiquidity[target.value := Liquidity(poolLiquidity, target.value) - amount];
      isMatched := true;
    }

    /** The loop over the pending loans. */
    method MatchAll(pending: seq<nat>, active: seq<nat>, failing: set<nat>)
      returns (matched: nat, skipped: nat)
      requires PlanIsRead(Plan(Rows(), active, failing), pending)
      modifies this
      ensures var r := Pass(Plan(old(Rows()), active, failing), pending, |pending|);
              Rows() == r.db && matched == r.matched && skipped == r.skipped
    {
      ghost var plan := Plan(Rows(), active, failing);
      var pendingLoans, activePools := loans, pools;
      var poolLiquidity := map p | p in active :: activePools[p].available;
      matched, skipped := 0, 0;
      assert Progress(Rows(), poolLiquidity, 0, 0) == Pass(plan, pending, 0);
      for i := 0 to |pending|
        invariant Progress(Rows(), poolLiquidity, matched, skipped) == Pass(plan, pending, i)
      {
        var l, isMatched := pending[i], false;
        ghost var at := Pass(plan, pending, i);
        RowAsRead(plan, pending, i);
        poolLiquidity, isMatched :=
          MatchLoan(plan, l, pendingLoans[l], activePools, active, failing, at, poolLiquidity);
        if isMatched {
          matched := matched + 1;
        } else {
          skipped := skipped + 1;
        }
      }
    }

    method RunAutoMatch(pending: seq<nat>, active: seq<nat>, failing: set<nat>)
      returns (matched: nat, skipped: nat)
      requires ForeignKeys(Rows())
      requires IsPending(Rows(), pending) && ByRequestTime(Rows(), pending)
      requires IsActive(Rows(), active) && ByLiquidity(Rows(), active)
      modifies this
      ensures var r := AutoMatch(Plan(old(Rows()), active, failing), pending);
              Rows() == r.db && matched == r.matched && skipped == r.skipped
    {
      if |pending| == 0 {
        return 0, 0;
      }
      if |active| == 0 {
        return 0, |pending|;
      }
      matched, skipped := MatchAll(pending, active, failing);
    }
  }

  /** A loan the loop has not reached is as it was read. */
  lemma RowAsRead(plan: Plan, pending: seq<nat>, i: nat)
    requires PlanIsRead(plan, pending) && i < |pending|
    ensures ForeignKeys(plan.read) && forall p | p in plan.active :: p < |plan.read.pools|
    ensures pending[i] < |plan.read.loans|
    ensures Pass(plan, pending, i).db.loans[pending[i]] == plan.read.loans[pending[i]]
    ensures Pass(plan, pending, i + 1) == MatchOne(plan, pending[i], Pass(plan, pending, i))
  {
    PassTouches(plan, pending, i, pending[i]);
  }
}
