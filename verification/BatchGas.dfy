/**
 Gas sizing of batches (scripts/batch-abort-drill.ts; keeper/README.md; the guard and the per-member check of
 contracts/D20VRFCoordinator.sol). The execution a gas limit protects is a run of members whose callbacks are
 adversaries: each may burn any part of its limit.
 */
module BatchGas {
  import opened Common

  const CALLBACK_RESERVE := 140_000
  const MEMBER_OVERHEAD := 400_000
  const TX_OVERHEAD := 73_112
  const MEMBER_TX_OVERHEAD := 27_168
  const LEAST_PADDING := 50_000

  // ---- the sizing code

  /** `guardBudget`: what the guarded coordinator requires before it serves any member. */
  function GuardBudget(limits: seq<nat>): nat {
    if limits == [] then CALLBACK_RESERVE
    else GuardBudget(limits[..|limits| - 1]) + MemberBudget(limits[|limits| - 1])
  }

  function MemberBudget(limit: nat): nat {
    limit + limit / 63 + MEMBER_OVERHEAD
  }

  function OwnCost(count: nat): nat {
    TX_OVERHEAD + MEMBER_TX_OVERHEAD * count
  }

  /** `floorOf`: the least gas limit a fulfillment of these members is sent with. */
  function FloorOf(limits: seq<nat>): nat {
    var needed := GuardBudget(limits) + OwnCost(|limits|);
    needed + (needed + 62) / 63
  }

  /** `newSizing`: the gas limit from an estimate. */
  function NewSizing(estimate: nat, limits: seq<nat>): nat {
    var guard := GuardBudget(limits);
    var excess := if estimate > guard then estimate - guard else 0;
    var padded := estimate + if excess / 5 > LEAST_PADDING then excess / 5 else LEAST_PADDING;
    var floor := FloorOf(limits);
    if padded > floor then padded else floor
  }

  /**
   The gas limit is the least that is at least the floor, at least 50,000 above the estimate, and above it by a fifth of
   what the estimate holds beyond the guard's budget.
   */
  lemma SizingIsLeast(estimate: nat, limits: seq<nat>, limit: nat)
    ensures limit >= NewSizing(estimate, limits) <==>
            && limit >= FloorOf(limits) && limit >= estimate + 50_000
            && (estimate > GuardBudget(limits) ==> limit >= estimate + (estimate - GuardBudget(limits)) / 5)
  {
    if estimate <= GuardBudget(limits) {
      assert 0 / 5 == 0;
    }
  }

  /** The floor is the least limit of which 63 parts in 64 are the guard's budget and the transaction's own cost. */
  lemma FloorIsLeast(limits: seq<nat>, limit: nat)
    ensures limit >= FloorOf(limits) <==> 63 * limit >= 64 * (GuardBudget(limits) + 73_112 + 27_168 * |limits|)
  {
  }

  /** The guard's budget: 140,000, and for each member its limit, a 63rd of it and 400,000. */
  lemma BudgetByMembers(limits: seq<nat>, limit: nat)
    ensures GuardBudget([]) == 140_000
    ensures GuardBudget(limits + [limit]) == GuardBudget(limits) + limit + limit / 63 + 400_000
  {
    assert (limits + [limit])[..|limits|] == limits;
  }

  /** The sizes of the drill's own batch. */
  lemma DrillSizes()
    ensures var limits := [100_000, 1_000_000, 1_000_000];
            && GuardBudget(limits) == 3_473_333 && FloorOf(limits) == 3_685_536
            && NewSizing(4_473_333, limits) == 4_673_333 && NewSizing(1_000_000, limits) == 3_685_536
  {
    BudgetByMembers([], 100_000);
    BudgetByMembers([100_000], 1_000_000);
    BudgetByMembers([100_000, 1_000_000], 1_000_000);
    assert [] + [100_000] == [100_000] && [100_000] + [1_000_000] == [100_000, 1_000_000];
    assert [100_000, 1_000_000] + [1_000_000] == [100_000, 1_000_000, 1_000_000];
  }

  // ---- what a call can be given

  /** EIP-150: of the gas left, a call passes on all but a 64th. */
  function Forwardable(gas: nat): nat {
    gas - gas / 64
  }

  lemma ForwardableGrows(a: nat, b: nat)
    requires a <= b
    ensures Forwardable(a) <= Forwardable(b) <= Forwardable(a) + (b - a)
  {
  }

  /** The least gas with which a call can be given cb. */
  function LeastForwarding(cb: nat): nat {
    if cb == 0 then 0 else cb + (cb - 1) / 63
  }

  lemma LeastForwardingIsLeast(cb: nat, gas: nat)
    ensures Forwardable(gas) >= cb <==> gas >= LeastForwarding(cb)
  {
  }

  /**
   cb + cb / 63 always suffices, and it is the least amount unless cb is a positive multiple of 63: then it is one
   more.
   */
  lemma BudgetTermIsNearlyLeast(cb: nat)
    ensures Forwardable(cb + cb / 63) >= cb
    ensures cb + cb / 63 == LeastForwarding(cb) <==> cb == 0 || cb % 63 != 0
    ensures cb > 0 && cb % 63 == 0 ==> cb + cb / 63 == LeastForwarding(cb) + 1
  {
  }

  /** The smallest limit for which one gas less would do: 63 gas can forward 63, and the budget takes 64. */
  lemma BudgetTermNotLeast()
    ensures Forwardable(63) >= 63 && 63 + 63 / 63 == 64
  {
  }

  // ---- reaching the guard

  /**
   What reaches the guard. The transaction spends `outer` before the proxy's delegatecall, which passes on 63/64, and
   `inner` after it, before the guard; both together are the transaction's own cost.
   */
  function ReachesGuard(limit: nat, outer: nat, inner: nat): int
    requires outer <= limit
  {
    Forwardable(limit - outer) - inner
  }

  lemma FloorForwards(needed: nat, gas: nat)
    requires gas >= needed + (needed + 62) / 63
    ensures Forwardable(gas) >= needed
  {
    LeastForwardingIsLeast(needed, gas);
  }

  /** A gas limit of at least the floor reaches the guard with at least its budget, however the own cost is split. */
  lemma FloorReachesGuard(limits: seq<nat>, limit: nat, outer: nat, inner: nat)
    requires limit >= FloorOf(limits) && outer + inner <= OwnCost(|limits|)
    ensures outer <= limit && ReachesGuard(limit, outer, inner) >= GuardBudget(limits)
  {
    var needed := GuardBudget(limits) + OwnCost(|limits|);
    FloorForwards(needed, limit);
    ForwardableGrows(limit - outer, limit);
  }

  // ---- serving the members

  /** A member as it runs: its callback limit, what it spends before and after its callback, and what that burns. */
  datatype Member = Member(limit: nat, pre: nat, burned: nat, post: nat)

  /** What the environment may do: overhead within its bound, and a callback within its limit. */
  ghost predicate Allowed(m: Member) {
    m.pre + m.post <= MEMBER_OVERHEAD && m.burned <= m.limit
  }

  /** The coordinator's check before a callback, else the whole batch reverts. */
  predicate PassesCheck(gas: int, limit: nat) {
    gas >= limit + limit / 63 + CALLBACK_RESERVE
  }

  /**
   Serve the members in order from this much gas; nothing when a check fails or gas runs out, and the batch reverts.
   */
  function Serve(gas: nat, members: seq<Member>): Option<nat> {
    if members == [] then Some(gas)
    else
      var m := members[0];
      if gas < m.pre || !PassesCheck(gas - m.pre, m.limit) || gas - m.pre < m.burned + m.post then None
      else Serve(gas - m.pre - m.burned - m.post, members[1..])
  }

  function Limits(members: seq<Member>): (ls: seq<nat>)
    ensures |ls| == |members|
  {
    if members == [] then [] else [members[0].limit] + Limits(members[1..])
  }

  ghost predicate AllAllowed(members: seq<Member>) {
    forall i :: 0 <= i < |members| ==> Allowed(members[i])
  }

  /** No adversary with these callback limits can make the batch revert. */
  ghost predicate Safe(gas: nat, limits: seq<nat>) {
    forall members :: AllAllowed(members) && Limits(members) == limits ==> Serve(gas, members).Some?
  }

  /** The gas an adversary cannot beat: the worst case spends all overhead first and burns every callback whole. */
  function Required(limits: seq<nat>): nat {
    if limits == [] then 0
    else
      var rest := Required(limits[1..]);
      var reserve := limits[0] / 63 + CALLBACK_RESERVE;
      MEMBER_OVERHEAD + limits[0] + if reserve > rest then reserve else rest
  }

  /** With the required gas every member passes its check, whatever the earlier callbacks burned. */
  lemma {:induction false} RequiredServes(gas: nat, members: seq<Member>)
    requires AllAllowed(members) && gas >= Required(Limits(members))
    ensures Serve(gas, members).Some?
  {
    if members != [] {
      var m := members[0];
      assert Allowed(m);
      assert Limits(members)[1..] == Limits(members[1..]);
      RequiredServes(gas - m.pre - m.burned - m.post, members[1..]);
    }
  }

  /** The worst members with these limits. */
  ghost function Worst(limits: seq<nat>): (members: seq<Member>)
    ensures AllAllowed(members) && Limits(members) == limits
  {
    if limits == [] then []
    else
      var rest := Worst(limits[1..]);
      var members := [Member(limits[0], MEMBER_OVERHEAD, limits[0], 0)] + rest;
      assert members[1..] == rest;
      members
  }

  lemma {:induction false} WorstNeedsRequired(gas: nat, limits: seq<nat>)
    requires Serve(gas, Worst(limits)).Some?
    ensures gas >= Required(limits)
  {
    if limits != [] {
      var members := Worst(limits);
      assert members[1..] == Worst(limits[1..]);
      WorstNeedsRequired(gas - MEMBER_OVERHEAD - limits[0], limits[1..]);
    }
  }

  /** The required gas is exact: a batch is safe against every adversary if and only if it has it. */
  lemma SafeIffRequired(gas: nat, limits: seq<nat>)
    ensures Safe(gas, limits) <==> gas >= Required(limits)
  {
    if gas >= Required(limits) {
      forall members | AllAllowed(members) && Limits(members) == limits ensures Serve(gas, members).Some? {
        RequiredServes(gas, members);
      }
    }
    if Safe(gas, limits) {
      assert Serve(gas, Worst(limits)).Some?;
      WorstNeedsRequired(gas, limits);
    }
  }

  /** One member: 540,000 beyond the callback's limit and its 63rd. */
  lemma SafeSingle(gas: nat, limit: nat)
    ensures Safe(gas, [limit]) <==> gas >= 540_000 + limit + limit / 63
  {
    SafeIffRequired(gas, [limit]);
    assert [limit][1..] == [];
  }

  ghost function BudgetSum(limits: seq<nat>): nat {
    if limits == [] then 0 else MemberBudget(limits[0]) + BudgetSum(limits[1..])
  }

  lemma {:induction false} GuardIsSum(limits: seq<nat>)
    ensures GuardBudget(limits) == CALLBACK_RESERVE + BudgetSum(limits)
  {
    if limits != [] {
      var n := |limits| - 1;
      GuardIsSum(limits[..n]);
      BudgetSumAppend(limits[..n], limits[n]);
      assert limits == limits[..n] + [limits[n]];
    }
  }

  lemma {:induction false} BudgetSumAppend(limits: seq<nat>, limit: nat)
    ensures BudgetSum(limits + [limit]) == BudgetSum(limits) + MemberBudget(limit)
  {
    if limits == [] {
      assert limits + [limit] == [limit];
    } else {
      BudgetSumAppend(limits[1..], limit);
      assert (limits + [limit])[1..] == limits[1..] + [limit];
    }
  }

  lemma {:induction false} SumCoversRequired(limits: seq<nat>)
    ensures limits != [] ==> Required(limits) <= CALLBACK_RESERVE + BudgetSum(limits)
  {
    if limits != [] { SumCoversRequired(limits[1..]); }
  }

  /** The guard's budget covers the required gas, and for a single member it is exactly that. */
  lemma GuardCoversRequired(limits: seq<nat>)
    ensures Required(limits) <= GuardBudget(limits)
    ensures |limits| == 1 ==> Required(limits) == GuardBudget(limits)
  {
    GuardIsSum(limits);
    SumCoversRequired(limits);
    if |limits| == 1 { assert limits[1..] == []; }
  }

  /** The 63rds of every callback limit but the last. */
  ghost function Slack(limits: seq<nat>): nat {
    if |limits| <= 1 then 0 else limits[0] / 63 + Slack(limits[1..])
  }

  /**
   How far the budget is from exact: for limits of up to 25.2 million gas, the 63rds of all callbacks but the last.
   */
  lemma {:induction false} GuardSlack(limits: seq<nat>)
    requires limits != [] && forall i :: 0 <= i < |limits| ==> limits[i] <= 63 * MEMBER_OVERHEAD
    ensures GuardBudget(limits) == Required(limits) + Slack(limits)
  {
    GuardIsSum(limits);
    if |limits| > 1 {
      GuardSlack(limits[1..]);
      GuardIsSum(limits[1..]);
    }
  }

  /** A member that passes its check has its callback's whole limit to give. */
  lemma CheckForwardsLimit(gas: nat, limit: nat)
    requires PassesCheck(gas, limit)
    ensures Forwardable(gas) >= limit
  {
    BudgetTermIsNearlyLeast(limit);
    ForwardableGrows(limit + limit / 63, gas);
  }

  /** Every member, when its turn comes, can be given its whole callback limit. */
  ghost predicate OffersLimits(gas: int, members: seq<Member>) {
    members == [] ||
    (&& gas >= members[0].pre && Forwardable(gas - members[0].pre) >= members[0].limit
     && OffersLimits(gas - members[0].pre - members[0].burned - members[0].post, members[1..]))
  }

  lemma {:induction false} ServedAreOffered(gas: nat, members: seq<Member>)
    requires Serve(gas, members).Some?
    ensures OffersLimits(gas, members)
  {
    if members != [] {
      var m := members[0];
      CheckForwardsLimit(gas - m.pre, m.limit);
      ServedAreOffered(gas - m.pre - m.burned - m.post, members[1..]);
    }
  }

  /**
   A fulfillment sent with at least the floor lands, on a coordinator with the guard or without it: the guard's budget
   reaches it, every member passes its own check, and each callback can be given its whole limit.
   */
  lemma FloorLandsBatch(members: seq<Member>, limit: nat, outer: nat, inner: nat)
    requires AllAllowed(members) && limit >= FloorOf(Limits(members))
    requires outer + inner <= OwnCost(|members|)
    ensures outer <= limit && ReachesGuard(limit, outer, inner) >= GuardBudget(Limits(members))
    ensures Serve(ReachesGuard(limit, outer, inner), members).Some?
    ensures OffersLimits(ReachesGuard(limit, outer, inner), members)
  {
    var limits := Limits(members);
    FloorReachesGuard(limits, limit, outer, inner);
    GuardCoversRequired(limits);
    RequiredServes(ReachesGuard(limit, outer, inner), members);
    ServedAreOffered(ReachesGuard(limit, outer, inner), members);
  }
}
