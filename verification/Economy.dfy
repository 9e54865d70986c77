/** The economic simulator's ledgers over exact reals. */
module Economy {
  import opened Digits

  const BLOCKS_PER_DAY: nat := 2880
  const HALVING: nat := 4_204_800
  const INITIAL_REWARD: real := 5.0

  /** World parameters. The square-root expressions of the source enter as the factors they produce. */
  datatype World = World(
    dauCurve: seq<int>,
    postsPerDau: real,
    avgPostKb: real,
    reactionsPerDau: real,
    dmsPerDau: real,
    avgDmKb: real,
    spamPosts: int,
    sybilReactors: int,
    bondFactor: real,
    reactionDecay: real)

  /** No negative counts or sizes, and square-root factors in the unit interval. */
  ghost predicate Sane(w: World)
  {
    && (forall i :: 0 <= i < |w.dauCurve| ==> w.dauCurve[i] >= 0)
    && w.postsPerDau >= 0.0 && w.avgPostKb >= 0.0 && w.reactionsPerDau >= 0.0
    && w.dmsPerDau >= 0.0 && w.avgDmKb >= 0.0 && w.spamPosts >= 0 && w.sybilReactors >= 0
    && 0.0 <= w.bondFactor <= 1.0 && 0.0 <= w.reactionDecay <= 1.0
  }

  /** `int(x)` truncates toward zero. */
  function Trunc(x: real): int
  {
    if x >= 0.0 then x.Floor else -(-x).Floor
  }

  function Min(a: real, b: real): real { if a < b then a else b }

  function Max(a: real, b: real): real { if a > b then a else b }

  function Dau(w: World, day: nat): int
    requires w.dauCurve != []
  {
    w.dauCurve[if day < |w.dauCurve| then day else |w.dauCurve| - 1]
  }

  function Posts(w: World, day: nat): int
    requires w.dauCurve != []
  {
    Trunc(Dau(w, day) as real * w.postsPerDau) + w.spamPosts
  }

  function Dms(w: World, day: nat): int
    requires w.dauCurve != []
  {
    Trunc(Dau(w, day) as real * w.dmsPerDau)
  }

  /** Reactions of real users. */
  function Legitimate(w: World, day: nat): int
    requires w.dauCurve != []
  {
    Trunc(Dau(w, day) as real * w.reactionsPerDau)
  }

  function PostBytes(w: World): real { w.avgPostKb * 1024.0 }

  function DmBytes(w: World): real { w.avgDmKb * 1024.0 }

  /** The halving schedule; it stops paying after 64 halvings. */
  function BlockReward(height: nat): real
  {
    var halvings := height / HALVING;
    if halvings < 64 then (PowPositive(2, halvings); INITIAL_REWARD / Pow(2, halvings) as real) else 0.0
  }

  lemma ProductNonNegative(a: real, b: real)
    requires a >= 0.0 && b >= 0.0
    ensures a * b >= 0.0
  {
  }

  lemma RewardNonNegative(height: nat)
    ensures BlockReward(height) >= 0.0
  {
    if height / HALVING < 64 {
      PowPositive(2, height / HALVING);
      QuotientNonNegative(INITIAL_REWARD, Pow(2, height / HALVING) as real);
    }
  }

  lemma QuotientNonNegative(a: real, b: real)
    requires a >= 0.0 && b > 0.0
    ensures a / b >= 0.0
  {
  }

  lemma CountsNonNegative(w: World, day: nat)
    requires w.dauCurve != [] && Sane(w)
    ensures Posts(w, day) >= 0 && Dms(w, day) >= 0 && PostBytes(w) >= 0.0 && DmBytes(w) >= 0.0
    ensures Legitimate(w, day) >= 0
  {
    ProductNonNegative(Dau(w, day) as real, w.postsPerDau);
    ProductNonNegative(Dau(w, day) as real, w.dmsPerDau);
    ProductNonNegative(Dau(w, day) as real, w.reactionsPerDau);
  }

  // ------------------------------------------------------------ M0: current model --

  datatype M0 = M0(
    blockHeight: nat,
    issuance: real,
    storagePool: real,
    reactionPool: real,
    minted: real,
    burned: real,
    minerRevenue: real,
    storagePaid: real,
    reactionPaid: real)

  const M0_GENESIS := M0(0, 11_000_000.0, 1_000_000.0, 10_000_000.0, 11_000_000.0, 0.0, 0.0, 0.0, 0.0)

  ghost function M0Blocks(s: M0, n: nat): M0
  {
    if n == 0 then s
    else
      var t, reward := M0Blocks(s, n - 1), BlockReward(s.blockHeight + n - 1);
      t.(minerRevenue := t.minerRevenue + reward, issuance := t.issuance + reward, minted := t.minted + reward)
  }

  function M0PostTotal(w: World, day: nat): real
    requires w.dauCurve != []
  {
    Posts(w, day) as real * (100.0 + 0.001 * PostBytes(w))
  }

  function M0DmTotal(w: World, day: nat): real
    requires w.dauCurve != []
  {
    Dms(w, day) as real * (1.0 + 0.05 * DmBytes(w))
  }

  ghost function M0Fees(s: M0, w: World, day: nat): M0
    requires w.dauCurve != []
  {
    var post, dm := M0PostTotal(w, day), M0DmTotal(w, day);
    s.(issuance := s.issuance - post - dm,
       burned := s.burned + post + dm,
       storagePool := s.storagePool + post * 0.8 + dm * 0.8,
       reactionPool := s.reactionPool + post * 0.1)
  }

  /** Rewards due for thirty days of posts, challenged every hour. */
  function M0StorageTarget(w: World, day: nat): real
    requires w.dauCurve != []
  {
    Posts(w, day) as real * PostBytes(w) * 30.0 * 0.000000000001 * 24.0
  }

  function M0ReactionTarget(w: World, day: nat): real
    requires w.dauCurve != []
  {
    (Legitimate(w, day) + w.sybilReactors) as real * 1.0
  }

  ghost function M0Storage(s: M0, w: World, day: nat): M0
    requires w.dauCurve != []
  {
    var payout := Min(M0StorageTarget(w, day), s.storagePool);
    s.(storagePool := s.storagePool - payout, storagePaid := s.storagePaid + payout,
       issuance := s.issuance + payout, minted := s.minted + payout)
  }

  ghost function M0Reactions(s: M0, w: World, day: nat): M0
    requires w.dauCurve != []
  {
    var payout := Min(M0ReactionTarget(w, day), s.reactionPool);
    s.(reactionPool := s.reactionPool - payout, reactionPaid := s.reactionPaid + payout,
       issuance := s.issuance + payout, minted := s.minted + payout)
  }

  ghost function M0Mined(s: M0): M0
  {
    M0Blocks(s, BLOCKS_PER_DAY).(blockHeight := s.blockHeight + BLOCKS_PER_DAY)
  }

  ghost function M0Day(s: M0, w: World, day: nat): M0
    requires w.dauCurve != []
  {
    M0Reactions(M0Storage(M0Fees(M0Mined(s), w, day), w, day), w, day)
  }

  ghost function M0Run(w: World, days: nat): M0
    requires w.dauCurve != []
  {
    if days == 0 then M0_GENESIS else M0Day(M0Run(w, days - 1), w, days - 1)
  }

  class M0State {
    var blockHeight: nat
    var totalIssuance: real
    var storagePool: real
    var reactionPool: real
    var totalMinted: real
    var totalBurned: real
    var minerRevenue: real
    var storagePaid: real
    var reactionPaid: real

    ghost function Abs(): M0
      reads this
    {
      M0(blockHeight, totalIssuance, storagePool, reactionPool, totalMinted, totalBurned, minerRevenue, storagePaid, reactionPaid)
    }

    constructor ()
      ensures Abs() == M0_GENESIS
    {
      blockHeight, totalIssuance, storagePool, reactionPool := 0, 11_000_000.0, 1_000_000.0, 10_000_000.0;
      totalMinted, totalBurned, minerRevenue, storagePaid, reactionPaid := 11_000_000.0, 0.0, 0.0, 0.0, 0.0;
    }

    method MineDay()
      modifies this
      ensures Abs() == M0Mined(old(Abs()))
    {
      for b := 0 to BLOCKS_PER_DAY
        invariant Abs() == M0Blocks(old(Abs()), b) && blockHeight == old(blockHeight)
      {
        var reward := BlockReward(blockHeight + b);
        minerRevenue := minerRevenue + reward;
        totalIssuance := totalIssuance + reward;
        totalMinted := totalMinted + reward;
      }
      blockHeight := blockHeight + BLOCKS_PER_DAY;
    }

    method ChargeFees(w: World, day: nat)
      requires w.dauCurve != []
      modifies this
      ensures Abs() == M0Fees(old(Abs()), w, day)
    {
      hide M0PostTotal, M0DmTotal;
      var postTotal := M0PostTotal(w, day);
      totalIssuance := totalIssuance - postTotal;
      totalBurned := totalBurned + postTotal;
      storagePool := storagePool + postTotal * 0.8;
      reactionPool := reactionPool + postTotal * 0.1;
      var dmCost := M0DmTotal(w, day);
      totalIssuance := totalIssuance - dmCost;
      totalBurned := totalBurned + dmCost;
      storagePool := storagePool + dmCost * 0.8;
    }

    method PayRewards(w: World, day: nat)
      requires w.dauCurve != []
      modifies this
      ensures Abs() == M0Reactions(M0Storage(old(Abs()), w, day), w, day)
    {
      hide M0StorageTarget, M0ReactionTarget;
      var storagePayout := Min(M0StorageTarget(w, day), storagePool);
      storagePool := storagePool - storagePayout;
      storagePaid := storagePaid + storagePayout;
      totalIssuance := totalIssuance + storagePayout;
      totalMinted := totalMinted + storagePayout;

      var reactionPayout := Min(M0ReactionTarget(w, day), reactionPool);
      reactionPool := reactionPool - reactionPayout;
      reactionPaid := reactionPaid + reactionPayout;
      totalIssuance := totalIssuance + reactionPayout;
      totalMinted := totalMinted + reactionPayout;
    }
  }

  /** `simulate_m0`. */
  method SimulateM0(w: World, days: nat) returns (s: M0State)
    requires w.dauCurve != []
    ensures fresh(s) && s.Abs() == M0Run(w, days)
  {
    s := new M0State();
    for d := 0 to days
      invariant fresh(s) && s.Abs() == M0Run(w, d)
    {
      s.MineDay();
      s.ChargeFees(w, d);
      s.PayRewards(w, d);
    }
  }

  /** The equations every M0 ledger satisfies. */
  ghost predicate M0Balanced(s: M0)
  {
    && s.issuance == s.minted - s.burned
    && s.minted == 11_000_000.0 + s.minerRevenue + s.storagePaid + s.reactionPaid
    && s.storagePool + s.storagePaid == 1_000_000.0 + 0.8 * s.burned
  }

  lemma {:induction false} M0BlocksBalanced(s: M0, n: nat)
    requires M0Balanced(s)
    ensures M0Balanced(M0Blocks(s, n))
    ensures var t := M0Blocks(s, n); t.storagePool == s.storagePool && t.reactionPool == s.reactionPool
  {
    hide BlockReward;
    if n != 0 {
      M0BlocksBalanced(s, n - 1);
    }
  }

  /** On every day of every M0 run issuance is minted minus burned, and the pools account for what they were credited. */
  lemma {:induction false} M0Conservation(w: World, days: nat)
    requires w.dauCurve != []
    ensures M0Balanced(M0Run(w, days))
  {
    if days != 0 {
      hide M0PostTotal, M0DmTotal, M0StorageTarget, M0ReactionTarget;
      M0Conservation(w, days - 1);
      M0BlocksBalanced(M0Run(w, days - 1), BLOCKS_PER_DAY);
    }
  }

  lemma M0FeesNonNegative(w: World, day: nat)
    requires w.dauCurve != [] && Sane(w)
    ensures M0PostTotal(w, day) >= 0.0 && M0DmTotal(w, day) >= 0.0
  {
    hide Posts, Dms, PostBytes, DmBytes, Sane;
    CountsNonNegative(w, day);
    ProductNonNegative(Posts(w, day) as real, 100.0 + 0.001 * PostBytes(w));
    ProductNonNegative(Dms(w, day) as real, 1.0 + 0.05 * DmBytes(w));
  }

  lemma M0TargetsNonNegative(w: World, day: nat)
    requires w.dauCurve != [] && Sane(w)
    ensures M0StorageTarget(w, day) >= 0.0 && M0ReactionTarget(w, day) >= 0.0
  {
    hide Posts, PostBytes;
    CountsNonNegative(w, day);
    ProductNonNegative(Posts(w, day) as real, PostBytes(w));
  }

  /** Pools are never overdrawn, and what they paid is covered by their endowment and their share of the burned fees. */
  ghost predicate M0Solvent(s: M0)
  {
    && s.storagePool >= 0.0 && s.reactionPool >= 0.0
    && 0.0 <= s.storagePaid && s.storagePool + s.storagePaid <= 1_000_000.0 + 0.8 * s.burned
    && 0.0 <= s.reactionPaid && s.reactionPool + s.reactionPaid <= 10_000_000.0 + 0.1 * s.burned
  }

  lemma {:induction false} M0BlocksSolvent(s: M0, n: nat)
    requires M0Solvent(s)
    ensures M0Solvent(M0Blocks(s, n))
  {
    hide BlockReward;
    if n != 0 {
      M0BlocksSolvent(s, n - 1);
    }
  }

  lemma M0DaySolvent(s: M0, w: World, day: nat)
    requires w.dauCurve != [] && Sane(w) && M0Solvent(s)
    ensures M0Solvent(M0Day(s, w, day))
  {
    hide M0PostTotal, M0DmTotal, M0StorageTarget, M0ReactionTarget, M0Blocks, Sane;
    M0BlocksSolvent(s, BLOCKS_PER_DAY);
    M0FeesNonNegative(w, day);
    M0TargetsNonNegative(w, day);
  }

  lemma GenesisSolvent()
    ensures M0Solvent(M0_GENESIS)
  {
  }

  /** With sane parameters every M0 run stays solvent. */
  lemma {:induction false} M0Solvency(w: World, days: nat)
    requires w.dauCurve != [] && Sane(w)
    ensures M0Solvent(M0Run(w, days))
  {
    hide M0Day, M0Solvent, Sane;
    if days == 0 {
      GenesisSolvent();
    } else {
      M0Solvency(w, days - 1);
      M0DaySolvent(M0Run(w, days - 1), w, days - 1);
    }
  }

  // ---------------------------------------------------------- the mining schedule --

  /** Block rewards paid below a height. */
  ghost function Mined(height: nat): real
  {
    if height == 0 then 0.0 else Mined(height - 1) + BlockReward(height - 1)
  }

  /** Each further halving pays half as much. */
  lemma RewardHalves(era: nat)
    requires era + 1 < 64
    ensures Pow(2, era) > 0 && Pow(2, era + 1) > 0
    ensures INITIAL_REWARD / Pow(2, era + 1) as real * 2.0 == INITIAL_REWARD / Pow(2, era) as real
  {
    PowPositive(2, era);
    PowPositive(2, era + 1);
    assert Pow(2, era + 1) == 2 * Pow(2, era);
    HalfQuotient(INITIAL_REWARD, Pow(2, era) as real);
  }

  lemma HalfQuotient(a: real, b: real)
    requires b > 0.0
    ensures a / (2.0 * b) * 2.0 == a / b
  {
    var q := a / (2.0 * b);
    assert q * (2.0 * b) == a;
    assert q * 2.0 * b == a;
  }

  lemma HeightStep(height: nat)
    ensures if height % HALVING + 1 < HALVING
            then (height + 1) / HALVING == height / HALVING && (height + 1) % HALVING == height % HALVING + 1
            else (height + 1) / HALVING == height / HALVING + 1 && (height + 1) % HALVING == 0
  {
  }

  /** Blocks that an unbounded schedule would still pay for, counted at the present reward. */
  function BlocksLeft(height: nat): real { (2 * HALVING - height % HALVING) as real }

  /** Up to the last halving, what was mined and what an unbounded schedule would still pay add up to a constant. */
  lemma {:induction false} MinedExactly(height: nat)
    requires height / HALVING < 64
    ensures Mined(height) + BlocksLeft(height) * BlockReward(height) == 42_048_000.0
  {
    hide BlockReward, BlocksLeft;
    if height == 0 {
      FirstReward();
    } else {
      HeightStep(height - 1);
      MinedExactly(height - 1);
      StillDue(height - 1);
    }
  }

  lemma StillDue(height: nat)
    requires (height + 1) / HALVING < 64
    ensures BlocksLeft(height + 1) * BlockReward(height + 1) == BlocksLeft(height) * BlockReward(height) - BlockReward(height)
  {
    hide BlockReward;
    HeightStep(height);
    NextReward(height);
    if (height + 1) / HALVING == height / HALVING {
      OneLess(BlocksLeft(height), BlockReward(height));
    } else {
      assert BlocksLeft(height) == HALVING as real + 1.0 && BlocksLeft(height + 1) == 2.0 * HALVING as real;
    }
  }

  lemma OneLess(n: real, r: real)
    ensures (n - 1.0) * r == n * r - r
  {
  }

  lemma FirstReward()
    ensures BlockReward(0) == 5.0 && BlocksLeft(0) == 8_409_600.0
  {
  }

  lemma NextReward(height: nat)
    requires (height + 1) / HALVING < 64
    ensures BlockReward(height) > 0.0
    ensures BlockReward(height + 1) * (if (height + 1) / HALVING == height / HALVING then 1.0 else 2.0) == BlockReward(height)
  {
    hide Pow;
    HeightStep(height);
    RewardPositive(height);
    if (height + 1) / HALVING != height / HALVING {
      RewardHalves(height / HALVING);
    }
  }

  lemma QuotientPositive(a: real, b: real)
    requires a > 0.0 && b > 0.0
    ensures a / b > 0.0
  {
  }

  lemma RewardPositive(height: nat)
    requires height / HALVING < 64
    ensures BlockReward(height) > 0.0
  {
    hide Pow;
    PowPositive(2, height / HALVING);
    QuotientPositive(INITIAL_REWARD, Pow(2, height / HALVING) as real);
  }

  lemma ManyLeft(height: nat)
    ensures BlocksLeft(height) > 1.0
  {
  }

  lemma RewardIsDue(height: nat)
    requires height / HALVING < 64
    ensures BlockReward(height) > 0.0 && Mined(height) + BlockReward(height) < 42_048_000.0
  {
    hide Mined, BlockReward, BlocksLeft;
    MinedExactly(height);
    RewardPositive(height);
    ManyLeft(height);
    ProductGrows(BlocksLeft(height), BlockReward(height));
  }

  lemma ProductGrows(n: real, r: real)
    requires n > 1.0 && r > 0.0
    ensures n * r > r
  {
    assert n * r - r == (n - 1.0) * r;
  }

  /** Block rewards never add up to the cap of 42,048,000, however high the chain grows. */
  lemma {:induction false} MinedBelowCap(height: nat)
    ensures Mined(height) < 42_048_000.0
  {
    hide BlockReward;
    if height / HALVING < 64 {
      RewardIsDue(height);
    } else if (height - 1) / HALVING < 64 {
      RewardIsDue(height - 1);
    } else {
      MinedBelowCap(height - 1);
      RewardEnds(height - 1);
    }
  }

  lemma RewardEnds(height: nat)
    requires height / HALVING >= 64
    ensures BlockReward(height) == 0.0
  {
  }

  lemma {:induction false} MinedGrows(height: nat, n: nat)
    ensures Mined(height) <= Mined(height + n)
  {
    hide BlockReward;
    if n != 0 {
      MinedGrows(height, n - 1);
      RewardNonNegative(height + n - 1);
    }
  }

  lemma {:induction false} BlocksAreMined(s: M0, n: nat)
    ensures M0Blocks(s, n).minerRevenue - s.minerRevenue == Mined(s.blockHeight + n) - Mined(s.blockHeight)
  {
    hide BlockReward;
    if n != 0 {
      BlocksAreMined(s, n - 1);
    }
  }

  lemma {:induction false} RevenueIsMined(w: World, days: nat)
    requires w.dauCurve != []
    ensures var s := M0Run(w, days);
      s.blockHeight == days * BLOCKS_PER_DAY && s.minerRevenue == Mined(days * BLOCKS_PER_DAY)
  {
    hide Mined, BlockReward, M0PostTotal, M0DmTotal, M0StorageTarget, M0ReactionTarget, M0Blocks;
    if days != 0 {
      RevenueIsMined(w, days - 1);
      BlocksAreMined(M0Run(w, days - 1), BLOCKS_PER_DAY);
    } else {
      NothingMined();
    }
  }

  lemma NothingMined()
    ensures Mined(0) == 0.0
  {
  }

  lemma {:induction false} NothingLeftToMine(height: nat, n: nat)
    requires height >= 269_107_200
    ensures Mined(height + n) == Mined(height)
  {
    if n != 0 {
      NothingLeftToMine(height, n - 1);
    }
  }

  /** Miner revenue in M0 is what the schedule pays in 2880 blocks a day, whatever the parameters. It never falls, stays
      below 42,048,000, and ends after 93,440 days. */
  lemma M0MinerRevenue(w: World, days: nat, more: nat)
    requires w.dauCurve != []
    ensures M0Run(w, days).minerRevenue == Mined(2880 * days)
    ensures M0Run(w, days).minerRevenue <= M0Run(w, days + more).minerRevenue < 42_048_000.0
    ensures days >= 93_440 ==> M0Run(w, days + more).minerRevenue == M0Run(w, days).minerRevenue
  {
    hide M0Run, Mined;
    RevenueIsMined(w, days);
    RevenueIsMined(w, days + more);
    assert (days + more) * BLOCKS_PER_DAY == days * BLOCKS_PER_DAY + more * BLOCKS_PER_DAY;
    MinedGrows(days * BLOCKS_PER_DAY, more * BLOCKS_PER_DAY);
    MinedBelowCap((days + more) * BLOCKS_PER_DAY);
    if days >= 93_440 {
      NothingLeftToMine(days * BLOCKS_PER_DAY, more * BLOCKS_PER_DAY);
    }
  }

  // ----------------------------------------------------------- M1: proposed model --

  const TAIL: real := 0.5
  const GAS_TARGET: real := 50_000.0
  const BASE_FEE_INIT: real := 0.00001
  const BASE_FEE_MAX: real := 0.1
  const BASE_FEE_MIN: real := 0.0000001
  const FAUCET_CAP: real := 100_000.0
  const FAUCET_REWARD: real := 100.0

  datatype M1 = M1(
    blockHeight: nat,
    issuance: real,
    storagePool: real,
    reactionPool: real,
    stealthPool: real,
    minted: real,
    burned: real,
    minerRevenue: real,
    storagePaid: real,
    reactionPaid: real,
    baseFee: real,
    baseFeeBurned: real,
    faucetMinted: real)

  const M1_GENESIS := M1(0, 100_000.0, 100_000.0, 100_000.0, 0.0, 100_000.0, 0.0, 0.0, 0.0, 0.0, BASE_FEE_INIT, 0.0, 0.0)

  /** EIP-1559 style adjustment: at most one eighth up or down per block, within fixed bounds. */
  function NextBaseFee(baseFee: real, bytesPerBlock: real): real
  {
    Max(Min(baseFee * Adjustment(bytesPerBlock), BASE_FEE_MAX), BASE_FEE_MIN)
  }

  function Adjustment(bytesPerBlock: real): (adj: real)
    ensures 0.875 <= adj <= 1.125
  {
    var utilization := bytesPerBlock / GAS_TARGET;
    var adj := 1.0 + (utilization - 1.0) / 8.0;
    Max(Min(adj, 1.125), 0.875)
  }

  function BytesPerBlock(w: World, day: nat): real
    requires w.dauCurve != []
  {
    (Posts(w, day) as real * PostBytes(w) + Dms(w, day) as real * DmBytes(w)) / 2880.0
  }

  function TailReward(height: nat): real
  {
    Max(BlockReward(height), TAIL)
  }

  ghost function M1Blocks(s: M1, bytesPerBlock: real, n: nat): M1
  {
    if n == 0 then s
    else
      var t, reward := M1Blocks(s, bytesPerBlock, n - 1), TailReward(s.blockHeight + n - 1);
      t.(minerRevenue := t.minerRevenue + reward * 0.50,
         issuance := t.issuance + reward * 0.50,
         minted := t.minted + reward * 0.50,
         storagePool := t.storagePool + reward * 0.30,
         reactionPool := t.reactionPool + reward * 0.20,
         baseFee := NextBaseFee(t.baseFee, bytesPerBlock))
  }

  ghost function M1Mined(s: M1, w: World, day: nat): M1
    requires w.dauCurve != []
  {
    M1Blocks(s, BytesPerBlock(w, day), BLOCKS_PER_DAY).(blockHeight := s.blockHeight + BLOCKS_PER_DAY)
  }

  /** What n messages pay: the part burned as base fee, and the rest. */
  function BaseFeePart(n: int, baseFee: real, bytes: real): real { n as real * baseFee * bytes }

  function TotalPart(n: int, base: real, tip: real, baseFee: real, bytes: real): real
  {
    n as real * (base + (tip + baseFee) * bytes)
  }

  ghost function M1Posts(s: M1, w: World, day: nat): M1
    requires w.dauCurve != []
  {
    var total := TotalPart(Posts(w, day), 50.0, 0.0008, s.baseFee, PostBytes(w));
    var fee := BaseFeePart(Posts(w, day), s.baseFee, PostBytes(w));
    s.(issuance := s.issuance - total,
       burned := s.burned + (fee + (total - fee) * 0.30),
       baseFeeBurned := s.baseFeeBurned + fee,
       storagePool := s.storagePool + (total - fee) * 0.50,
       reactionPool := s.reactionPool + (total - fee) * 0.20)
  }

  ghost function M1Dms(s: M1, w: World, day: nat): M1
    requires w.dauCurve != []
  {
    var total := TotalPart(Dms(w, day), 0.5, 0.04, s.baseFee, DmBytes(w));
    var fee := BaseFeePart(Dms(w, day), s.baseFee, DmBytes(w));
    s.(issuance := s.issuance - total,
       burned := s.burned + (fee + (total - fee) * 0.30),
       storagePool := s.storagePool + (total - fee) * 0.50,
       stealthPool := s.stealthPool + (total - fee) * 0.20)
  }

  function DailyClaims(faucetMinted: real): int
  {
    var left := Trunc((FAUCET_CAP - faucetMinted) / FAUCET_REWARD);
    if left < 50 then left else 50
  }

  ghost function M1Faucet(s: M1): M1
  {
    if s.faucetMinted < FAUCET_CAP then
      var mint := DailyClaims(s.faucetMinted) as real * FAUCET_REWARD;
      s.(faucetMinted := s.faucetMinted + mint, issuance := s.issuance + mint, minted := s.minted + mint)
    else s
  }

  function StorageTarget(w: World, day: nat, storagePool: real): real
    requires w.dauCurve != []
  {
    Posts(w, day) as real * PostBytes(w) * 30.0 * 0.000000005 * 24.0 * w.bondFactor * Min(1.0, storagePool / 500_000.0)
  }

  ghost function M1Storage(s: M1, w: World, day: nat): M1
    requires w.dauCurve != []
  {
    var payout := Min(StorageTarget(w, day, s.storagePool), s.storagePool);
    s.(storagePool := s.storagePool - payout, storagePaid := s.storagePaid + payout,
       issuance := s.issuance + payout, minted := s.minted + payout)
  }

  /** Legitimate reactions decay with their number per user, one reaction per sybil does not. */
  function Payouts(legitimate: real, sybils: real, gamma: real, decay: real): real
  {
    legitimate * gamma * decay + sybils * gamma * 1.0
  }

  function ReactionTarget(w: World, day: nat, reactionPool: real, issuance: real): real
    requires w.dauCurve != []
  {
    var decay := if w.reactionsPerDau > 0.0 then w.reactionDecay else 1.0;
    var gamma := reactionPool / Max(issuance, 0.000000001);
    Payouts(Legitimate(w, day) as real, w.sybilReactors as real, gamma, decay)
  }

  ghost function M1Reactions(s: M1, w: World, day: nat): M1
    requires w.dauCurve != []
  {
    var payout := Min(ReactionTarget(w, day, s.reactionPool, s.issuance), s.reactionPool * 0.05);
    s.(reactionPool := s.reactionPool - payout, reactionPaid := s.reactionPaid + payout,
       issuance := s.issuance + payout, minted := s.minted + payout)
  }

  ghost function M1Day(s: M1, w: World, day: nat): M1
    requires w.dauCurve != []
  {
    M1Reactions(M1Storage(M1Faucet(M1Dms(M1Posts(M1Mined(s, w, day), w, day), w, day)), w, day), w, day)
  }

  ghost function M1Run(w: World, days: nat): M1
    requires w.dauCurve != []
  {
    if days == 0 then M1_GENESIS else M1Day(M1Run(w, days - 1), w, days - 1)
  }

  class M1State {
    var blockHeight: nat
    var totalIssuance: real
    var storagePool: real
    var reactionPool: real
    var stealthPool: real
    var totalMinted: real
    var totalBurned: real
    var minerRevenue: real
    var storagePaid: real
    var reactionPaid: real
    var baseFee: real
    var baseFeeBurned: real
    var faucetMintedTotal: real

    ghost function Abs(): M1
      reads this
    {
      M1(blockHeight, totalIssuance, storagePool, reactionPool, stealthPool, totalMinted, totalBurned, minerRevenue,
         storagePaid, reactionPaid, baseFee, baseFeeBurned, faucetMintedTotal)
    }

    constructor ()
      ensures Abs() == M1_GENESIS
    {
      blockHeight, totalIssuance, storagePool, reactionPool, stealthPool := 0, 100_000.0, 100_000.0, 100_000.0, 0.0;
      totalMinted, totalBurned, minerRevenue, storagePaid, reactionPaid := 100_000.0, 0.0, 0.0, 0.0, 0.0;
      baseFee, baseFeeBurned, faucetMintedTotal := BASE_FEE_INIT, 0.0, 0.0;
    }

    method MineDay(w: World, day: nat)
      requires w.dauCurve != []
      modifies this
      ensures Abs() == M1Mined(old(Abs()), w, day)
    {
      hide NextBaseFee, TailReward;
      var bytesPerBlock := BytesPerBlock(w, day);
      for b := 0 to BLOCKS_PER_DAY
        invariant Abs() == M1Blocks(old(Abs()), bytesPerBlock, b) && blockHeight == old(blockHeight)
      {
        var reward := TailReward(blockHeight + b);
        minerRevenue := minerRevenue + reward * 0.50;
        totalIssuance := totalIssuance + reward * 0.50;
        totalMinted := totalMinted + reward * 0.50;
        storagePool := storagePool + reward * 0.30;
        reactionPool := reactionPool + reward * 0.20;
        baseFee := NextBaseFee(baseFee, bytesPerBlock);
      }
      blockHeight := blockHeight + BLOCKS_PER_DAY;
    }

    method ChargePosts(w: World, day: nat)
      requires w.dauCurve != []
      modifies this
      ensures Abs() == M1Posts(old(Abs()), w, day)
    {
      var postTotal := TotalPart(Posts(w, day), 50.0, 0.0008, baseFee, PostBytes(w));
      var postBaseFeeBurn := BaseFeePart(Posts(w, day), baseFee, PostBytes(w));
      var postRemaining := postTotal - postBaseFeeBurn;
      totalIssuance := totalIssuance - postTotal;
      totalBurned := totalBurned + (postBaseFeeBurn + postRemaining * 0.30);
      baseFeeBurned := baseFeeBurned + postBaseFeeBurn;
      storagePool := storagePool + postRemaining * 0.50;
      reactionPool := reactionPool + postRemaining * 0.20;
    }

    method ChargeDms(w: World, day: nat)
      requires w.dauCurve != []
      modifies this
      ensures Abs() == M1Dms(old(Abs()), w, day)
    {
      var dmTotal := TotalPart(Dms(w, day), 0.5, 0.04, baseFee, DmBytes(w));
      var dmBaseFeeBurn := BaseFeePart(Dms(w, day), baseFee, DmBytes(w));
      var dmRemaining := dmTotal - dmBaseFeeBurn;
      totalIssuance := totalIssuance - dmTotal;
      totalBurned := totalBurned + (dmBaseFeeBurn + dmRemaining * 0.30);
      storagePool := storagePool + dmRemaining * 0.50;
      stealthPool := stealthPool + dmRemaining * 0.20;
    }

    method RunFaucet()
      modifies this
      ensures Abs() == M1Faucet(old(Abs()))
    {
      if faucetMintedTotal < FAUCET_CAP {
        var faucetMint := DailyClaims(faucetMintedTotal) as real * FAUCET_REWARD;
        faucetMintedTotal := faucetMintedTotal + faucetMint;
        totalIssuance := totalIssuance + faucetMint;
        totalMinted := totalMinted + faucetMint;
      }
    }

    method PayRewards(w: World, day: nat)
      requires w.dauCurve != []
      modifies this
      ensures Abs() == M1Reactions(M1Storage(old(Abs()), w, day), w, day)
    {
      var storagePayout := Min(StorageTarget(w, day, storagePool), storagePool);
      storagePool := storagePool - storagePayout;
      storagePaid := storagePaid + storagePayout;
      totalIssuance := totalIssuance + storagePayout;
      totalMinted := totalMinted + storagePayout;

      var maxDaily := reactionPool * 0.05;
      var totalPayout := Min(ReactionTarget(w, day, reactionPool, totalIssuance), maxDaily);
      reactionPool := reactionPool - totalPayout;
      reactionPaid := reactionPaid + totalPayout;
      totalIssuance := totalIssuance + totalPayout;
      totalMinted := totalMinted + totalPayout;
    }
  }

  /** `simulate_m1`. */
  method SimulateM1(w: World, days: nat) returns (s: M1State)
    requires w.dauCurve != []
    ensures fresh(s) && s.Abs() == M1Run(w, days)
  {
    hide M1Mined, M1Posts, M1Dms, M1Faucet, M1Storage, M1Reactions;
    s := new M1State();
    for d := 0 to days
      invariant fresh(s) && s.Abs() == M1Run(w, d)
    {
      s.MineDay(w, d);
      s.ChargePosts(w, d);
      s.ChargeDms(w, d);
      s.RunFaucet();
      s.PayRewards(w, d);
    }
  }

  /** Money outside the pools, in the pools, and burned: conserved up to what was created. */
  ghost predicate M1Balanced(s: M1)
  {
    && s.issuance + s.storagePool + s.reactionPool + s.stealthPool + s.burned
       == 300_000.0 + 2.0 * s.minerRevenue + s.faucetMinted
    && s.minted == 100_000.0 + s.minerRevenue + s.faucetMinted + s.storagePaid + s.reactionPaid
  }

  ghost predicate M1Bounded(s: M1)
  {
    && s.storagePool >= 0.0 && s.reactionPool >= 0.0 && s.stealthPool >= 0.0
    && BASE_FEE_MIN <= s.baseFee <= BASE_FEE_MAX
    && 0.0 <= s.faucetMinted <= FAUCET_CAP
  }

  lemma {:induction false} M1BlocksBalanced(s: M1, bytesPerBlock: real, n: nat)
    requires M1Balanced(s)
    ensures M1Balanced(M1Blocks(s, bytesPerBlock, n))
  {
    hide TailReward, NextBaseFee;
    if n != 0 {
      M1BlocksBalanced(s, bytesPerBlock, n - 1);
    }
  }

  lemma M1DayBalanced(s: M1, w: World, day: nat)
    requires w.dauCurve != [] && M1Balanced(s)
    ensures M1Balanced(M1Day(s, w, day))
  {
    hide M1Blocks, BytesPerBlock, TotalPart, BaseFeePart, Posts, Dms, PostBytes, DmBytes, DailyClaims, StorageTarget, ReactionTarget;
    M1BlocksBalanced(s, BytesPerBlock(w, day), BLOCKS_PER_DAY);
    assert M1Balanced(M1Mined(s, w, day));
    assert M1Balanced(M1Dms(M1Posts(M1Mined(s, w, day), w, day), w, day));
  }

  /** On every day of every M1 run the ledger balances, whatever the parameters. */
  lemma {:induction false} M1Conservation(w: World, days: nat)
    requires w.dauCurve != []
    ensures M1Balanced(M1Run(w, days))
  {
    hide M1Day, M1Balanced;
    if days == 0 {
      GenesisBalanced();
    } else {
      M1Conservation(w, days - 1);
      M1DayBalanced(M1Run(w, days - 1), w, days - 1);
    }
  }

  lemma GenesisBalanced()
    ensures M1Balanced(M1_GENESIS) && M1Bounded(M1_GENESIS)
  {
  }

  lemma {:induction false} M1BlocksBounded(s: M1, bytesPerBlock: real, n: nat)
    requires M1Bounded(s)
    ensures M1Bounded(M1Blocks(s, bytesPerBlock, n))
  {
    hide BlockReward;
    if n != 0 {
      M1BlocksBounded(s, bytesPerBlock, n - 1);
      FeeBounds(M1Blocks(s, bytesPerBlock, n - 1).baseFee, bytesPerBlock);
      hide NextBaseFee;
    }
  }

  /** The base fee moves by at most one eighth per block and stays in its bounds, whatever the load. */
  lemma FeeBounds(baseFee: real, bytesPerBlock: real)
    requires BASE_FEE_MIN <= baseFee <= BASE_FEE_MAX
    ensures BASE_FEE_MIN <= NextBaseFee(baseFee, bytesPerBlock) <= BASE_FEE_MAX
    ensures 0.875 * baseFee <= NextBaseFee(baseFee, bytesPerBlock) <= 1.125 * baseFee
  {
    hide Adjustment;
    var factor := Adjustment(bytesPerBlock);
    ScaleBounds(baseFee, factor);
    ClampBounds(baseFee, baseFee * factor);
  }

  lemma ClampBounds(baseFee: real, moved: real)
    requires BASE_FEE_MIN <= baseFee <= BASE_FEE_MAX
    requires 0.875 * baseFee <= moved <= 1.125 * baseFee
    ensures var next := Max(Min(moved, BASE_FEE_MAX), BASE_FEE_MIN);
      BASE_FEE_MIN <= next <= BASE_FEE_MAX && 0.875 * baseFee <= next <= 1.125 * baseFee
  {
  }

  lemma ScaleBounds(x: real, factor: real)
    requires x >= 0.0 && 0.875 <= factor <= 1.125
    ensures 0.875 * x <= x * factor <= 1.125 * x
  {
    ProductNonNegative(x, factor - 0.875);
    ProductNonNegative(x, 1.125 - factor);
  }

  /** The base fee cancels out of what reaches the pools. */
  lemma RemainingPart(n: int, base: real, tip: real, baseFee: real, bytes: real)
    ensures TotalPart(n, base, tip, baseFee, bytes) - BaseFeePart(n, baseFee, bytes) == n as real * (base + tip * bytes)
  {
    var m := n as real;
    assert (tip + baseFee) * bytes == tip * bytes + baseFee * bytes;
    assert m * (base + (tip * bytes + baseFee * bytes)) == m * (base + tip * bytes) + m * (baseFee * bytes);
    assert m * (baseFee * bytes) == m * baseFee * bytes;
  }

  lemma M1FeesBounded(s: M1, w: World, day: nat)
    requires w.dauCurve != [] && Sane(w) && M1Bounded(s)
    ensures M1Bounded(M1Dms(M1Posts(s, w, day), w, day))
  {
    hide Posts, Dms, PostBytes, DmBytes, TotalPart, BaseFeePart, Sane;
    CountsNonNegative(w, day);
    RemainingPart(Posts(w, day), 50.0, 0.0008, s.baseFee, PostBytes(w));
    RemainingPart(Dms(w, day), 0.5, 0.04, s.baseFee, DmBytes(w));
    ProductNonNegative(Posts(w, day) as real, 50.0 + 0.0008 * PostBytes(w));
    ProductNonNegative(Dms(w, day) as real, 0.5 + 0.04 * DmBytes(w));
  }

  lemma M1FaucetBounded(s: M1)
    requires M1Bounded(s)
    ensures M1Bounded(M1Faucet(s))
  {
    if s.faucetMinted < FAUCET_CAP {
      var ratio := (FAUCET_CAP - s.faucetMinted) / FAUCET_REWARD;
      assert ratio * FAUCET_REWARD == FAUCET_CAP - s.faucetMinted;
      assert 0 <= Trunc(ratio) && Trunc(ratio) as real <= ratio;
    }
  }

  lemma M1RewardsBounded(s: M1, w: World, day: nat)
    requires w.dauCurve != [] && M1Bounded(s)
    ensures M1Bounded(M1Reactions(M1Storage(s, w, day), w, day))
  {
    hide StorageTarget, ReactionTarget;
  }

  /** On every day of every M1 run with sane parameters: pools are not negative, the base fee is within bounds and the
      faucet within its cap. */
  lemma {:induction false} M1Bounds(w: World, days: nat)
    requires w.dauCurve != [] && Sane(w)
    ensures M1Bounded(M1Run(w, days))
  {
    hide M1Bounded, M1Blocks, M1Posts, M1Dms, M1Faucet, M1Storage, M1Reactions, Sane;
    if days == 0 {
      GenesisBalanced();
    } else {
      var s, day := M1Run(w, days - 1), days - 1;
      M1Bounds(w, days - 1);
      M1MinedBounded(s, w, day);
      M1FeesBounded(M1Mined(s, w, day), w, day);
      M1FaucetBounded(M1Dms(M1Posts(M1Mined(s, w, day), w, day), w, day));
      M1RewardsBounded(M1Faucet(M1Dms(M1Posts(M1Mined(s, w, day), w, day), w, day)), w, day);
    }
  }

  lemma M1MinedBounded(s: M1, w: World, day: nat)
    requires w.dauCurve != [] && M1Bounded(s)
    ensures M1Bounded(M1Mined(s, w, day))
  {
    M1BlocksBounded(s, BytesPerBlock(w, day), BLOCKS_PER_DAY);
  }

  lemma {:induction false} BlocksPayTail(s: M1, bytesPerBlock: real, n: nat)
    ensures M1Blocks(s, bytesPerBlock, n).minerRevenue >= s.minerRevenue + 0.25 * n as real
  {
    hide BlockReward, NextBaseFee;
    if n != 0 {
      BlocksPayTail(s, bytesPerBlock, n - 1);
    }
  }

  /** The tail emission: in M1 miners earn at least 720 on every day, halvings notwithstanding. */
  lemma {:induction false} M1TailEmission(w: World, days: nat)
    requires w.dauCurve != []
    ensures M1Run(w, days).minerRevenue >= 720.0 * days as real
  {
    hide M1Blocks, BytesPerBlock, TotalPart, BaseFeePart, Posts, Dms, PostBytes, DmBytes, DailyClaims, StorageTarget, ReactionTarget;
    if days != 0 {
      var s := M1Run(w, days - 1);
      M1TailEmission(w, days - 1);
      BlocksPayTail(s, BytesPerBlock(w, days - 1), BLOCKS_PER_DAY);
    }
  }

  // -------------------------------------------------------- the base-fee counter --

  /** The base fee in force when the given day's posts and messages are charged. */
  ghost function DayFee(w: World, day: nat): real
    requires w.dauCurve != []
  {
    M1Mined(M1Run(w, day), w, day).baseFee
  }

  /** Base fees burned over a run, by posts and by direct messages. */
  ghost function PostFeesBurned(w: World, days: nat): real
    requires w.dauCurve != []
  {
    if days == 0 then 0.0
    else PostFeesBurned(w, days - 1) + BaseFeePart(Posts(w, days - 1), DayFee(w, days - 1), PostBytes(w))
  }

  ghost function DmFeesBurned(w: World, days: nat): real
    requires w.dauCurve != []
  {
    if days == 0 then 0.0
    else DmFeesBurned(w, days - 1) + BaseFeePart(Dms(w, days - 1), DayFee(w, days - 1), DmBytes(w))
  }

  lemma {:induction false} BlocksKeepCounter(s: M1, bytesPerBlock: real, n: nat)
    ensures M1Blocks(s, bytesPerBlock, n).baseFeeBurned == s.baseFeeBurned
  {
    hide TailReward, NextBaseFee;
    if n != 0 {
      BlocksKeepCounter(s, bytesPerBlock, n - 1);
    }
  }

  lemma CounterDay(s: M1, w: World, day: nat)
    requires w.dauCurve != []
    ensures M1Day(s, w, day).baseFeeBurned
         == s.baseFeeBurned + BaseFeePart(Posts(w, day), M1Mined(s, w, day).baseFee, PostBytes(w))
  {
    hide M1Blocks, BytesPerBlock, TotalPart, BaseFeePart, Posts, Dms, PostBytes, DmBytes, DailyClaims, StorageTarget, ReactionTarget;
    BlocksKeepCounter(s, BytesPerBlock(w, day), BLOCKS_PER_DAY);
  }

  lemma {:induction false} CounterIsPosts(w: World, days: nat)
    requires w.dauCurve != []
    ensures M1Run(w, days).baseFeeBurned == PostFeesBurned(w, days)
  {
    hide M1Day, M1Mined, BaseFeePart, Posts, PostBytes;
    if days != 0 {
      CounterIsPosts(w, days - 1);
      CounterDay(M1Run(w, days - 1), w, days - 1);
    }
  }

  lemma PartSign(n: int, baseFee: real, bytes: real)
    requires n >= 0 && baseFee > 0.0 && bytes >= 0.0
    ensures BaseFeePart(n, baseFee, bytes) >= 0.0
    ensures BaseFeePart(n, baseFee, bytes) == 0.0 <==> n == 0 || bytes == 0.0
  {
    if n != 0 {
      assert n as real * baseFee > 0.0;
    }
  }

  ghost predicate NoDmBytes(w: World, days: nat)
    requires w.dauCurve != []
  {
    DmBytes(w) == 0.0 || forall day :: 0 <= day < days ==> Dms(w, day) == 0
  }

  lemma {:induction false} DmFeesSign(w: World, days: nat)
    requires w.dauCurve != [] && Sane(w)
    ensures DmFeesBurned(w, days) >= 0.0 && (DmFeesBurned(w, days) == 0.0 <==> NoDmBytes(w, days))
  {
    hide M1Run, BaseFeePart, Dms, DmBytes, Sane, M1Mined;
    if days != 0 {
      var day := days - 1;
      DmFeesSign(w, day);
      CountsNonNegative(w, day);
      M1Bounds(w, day);
      M1MinedBounded(M1Run(w, day), w, day);
      PartSign(Dms(w, day), DayFee(w, day), DmBytes(w));
    }
  }

  /** The reported base-fee burn leaves out direct messages: it is everything burned as base fee exactly when no direct
      message with a byte in it was ever charged. */
  lemma M1BaseFeeCounter(w: World, days: nat)
    requires w.dauCurve != [] && Sane(w)
    ensures var counter, all := M1Run(w, days).baseFeeBurned, PostFeesBurned(w, days) + DmFeesBurned(w, days);
      counter <= all && (counter == all <==> NoDmBytes(w, days))
  {
    hide Sane, M1Run, PostFeesBurned, DmFeesBurned, NoDmBytes;
    CounterIsPosts(w, days);
    DmFeesSign(w, days);
  }

  // ------------------------------------------------ the base fee follows the load --

  lemma AdjustmentExactly(load: real)
    requires load >= 0.0
    ensures Adjustment(load) == if load <= 100_000.0 then 1.0 + (load / 50_000.0 - 1.0) / 8.0 else 1.125
  {
    assert load / GAS_TARGET == load / 50_000.0;
  }

  /** Up to double the target of 50,000 bytes per block the fee moves by fee * (load / 50,000 - 1) / 8, cut off at the
      bounds; beyond that by an eighth. */
  lemma FeeExactly(fee: real, load: real)
    requires load >= 0.0
    ensures var moved := if load <= 100_000.0 then fee + fee * (load / 50_000.0 - 1.0) / 8.0 else fee + fee / 8.0;
      NextBaseFee(fee, load) == if moved > 0.1 then 0.1 else if moved < 0.0000001 then 0.0000001 else moved
  {
    hide Adjustment;
    AdjustmentExactly(load);
    var u := load / 50_000.0 - 1.0;
    assert fee * (1.0 + u / 8.0) == fee + fee * u / 8.0;
  }

  function Move(fee: real, load: real): real { fee * (load / 50_000.0 - 1.0) / 8.0 }

  lemma FeeMoves(fee: real, load: real)
    requires load >= 0.0
    ensures var moved := if load <= 100_000.0 then fee + Move(fee, load) else fee + fee / 8.0;
      NextBaseFee(fee, load) == if moved > 0.1 then 0.1 else if moved < 0.0000001 then 0.0000001 else moved
  {
    hide NextBaseFee;
    FeeExactly(fee, load);
  }

  /** The fee rises above the target, falls below it and stays at it, up to the two bounds. */
  lemma FeeFollowsLoad(fee: real, load: real)
    requires 0.0000001 <= fee <= 0.1 && load >= 0.0
    ensures load == 50_000.0 ==> NextBaseFee(fee, load) == fee
    ensures load > 50_000.0 ==> NextBaseFee(fee, load) > fee || NextBaseFee(fee, load) == fee == 0.1
    ensures load < 50_000.0 ==> NextBaseFee(fee, load) < fee || NextBaseFee(fee, load) == fee == 0.0000001
  {
    hide NextBaseFee, Move;
    FeeMoves(fee, load);
    SignOfMove(fee, load);
  }

  lemma SignOfProduct(fee: real, u: real)
    requires fee > 0.0
    ensures (u > 0.0 <==> fee * u > 0.0) && (u < 0.0 <==> fee * u < 0.0)
  {
    if u < 0.0 {
      ProductPositive(fee, -u);
      assert fee * -u == -(fee * u);
    } else if u > 0.0 {
      ProductPositive(fee, u);
    }
  }

  lemma ProductPositive(a: real, b: real)
    requires a > 0.0 && b > 0.0
    ensures a * b > 0.0
  {
  }

  lemma SignOfMove(fee: real, load: real)
    requires fee > 0.0
    ensures (load > 50_000.0 <==> Move(fee, load) > 0.0) && (load < 50_000.0 <==> Move(fee, load) < 0.0)
  {
    var u := load / 50_000.0 - 1.0;
    assert u * 50_000.0 == load - 50_000.0;
    SignOfProduct(fee, u);
    var product := fee * u;
    assert (product > 0.0 <==> product / 8.0 > 0.0) && (product < 0.0 <==> product / 8.0 < 0.0);
  }

  lemma IdleStep(fee: real)
    requires 0.0000001 <= fee <= 0.1
    ensures NextBaseFee(fee, 0.0) == if fee * 0.875 < 0.0000001 then 0.0000001 else fee * 0.875
  {
    FeeExactly(fee, 0.0);
  }

  lemma BusyStep(fee: real, load: real)
    requires 0.0000001 <= fee <= 0.1 && load >= 100_000.0
    ensures NextBaseFee(fee, load) == if fee * 1.125 > 0.1 then 0.1 else fee * 1.125
  {
    FeeExactly(fee, load);
    if load == 100_000.0 {
      assert load / 50_000.0 == 2.0;
    }
  }

  lemma {:induction false} FeeStaysBounded(s: M1, load: real, n: nat)
    requires 0.0000001 <= s.baseFee <= 0.1
    ensures 0.0000001 <= M1Blocks(s, load, n).baseFee <= 0.1
  {
    hide TailReward, NextBaseFee;
    if n != 0 {
      FeeStaysBounded(s, load, n - 1);
      FeeBounds(M1Blocks(s, load, n - 1).baseFee, load);
    }
  }

  lemma NextFee(s: M1, load: real, n: nat)
    ensures M1Blocks(s, load, n + 1).baseFee == NextBaseFee(M1Blocks(s, load, n).baseFee, load)
  {
    hide TailReward, NextBaseFee;
  }

  function AtLeast(bound: real): real { if bound < 0.0000001 then 0.0000001 else bound }

  function AtMost(bound: real): real { if bound > 0.1 then 0.1 else bound }

  lemma OneIdle(s: M1, n: nat, bound: real)
    requires 0.0000001 <= s.baseFee <= 0.1 && M1Blocks(s, 0.0, n).baseFee <= AtLeast(bound)
    ensures M1Blocks(s, 0.0, n + 1).baseFee <= AtLeast(bound * 0.875)
  {
    hide M1Blocks, NextBaseFee;
    FeeStaysBounded(s, 0.0, n);
    NextFee(s, 0.0, n);
    IdleStep(M1Blocks(s, 0.0, n).baseFee);
  }

  /** Twelve and a half per cent down six times is less than half. */
  lemma SixIdle(s: M1, n: nat, bound: real)
    requires 0.0000001 <= s.baseFee <= 0.1 && M1Blocks(s, 0.0, n).baseFee <= AtLeast(bound) && bound >= 0.0
    ensures M1Blocks(s, 0.0, n + 6).baseFee <= AtLeast(bound / 2.0)
  {
    hide M1Blocks, AtLeast;
    OneIdle(s, n, bound);
    OneIdle(s, n + 1, bound * 0.875);
    OneIdle(s, n + 2, bound * 0.875 * 0.875);
    OneIdle(s, n + 3, bound * 0.875 * 0.875 * 0.875);
    OneIdle(s, n + 4, bound * 0.875 * 0.875 * 0.875 * 0.875);
    OneIdle(s, n + 5, bound * 0.875 * 0.875 * 0.875 * 0.875 * 0.875);
    AtLeastGrows(bound * 0.875 * 0.875 * 0.875 * 0.875 * 0.875 * 0.875, bound / 2.0);
  }

  lemma AtLeastGrows(a: real, b: real)
    requires a <= b
    ensures AtLeast(a) <= AtLeast(b) && AtMost(a) <= AtMost(b)
  {
  }

  lemma OneBusy(s: M1, load: real, n: nat, bound: real)
    requires 0.0000001 <= s.baseFee <= 0.1 && load >= 100_000.0 && AtMost(bound) <= M1Blocks(s, load, n).baseFee
    ensures AtMost(bound * 1.125) <= M1Blocks(s, load, n + 1).baseFee
  {
    hide M1Blocks, NextBaseFee;
    FeeStaysBounded(s, load, n);
    NextFee(s, load, n);
    BusyStep(M1Blocks(s, load, n).baseFee, load);
  }

  /** Twelve and a half per cent up six times is more than double. */
  lemma SixBusy(s: M1, load: real, n: nat, bound: real)
    requires 0.0000001 <= s.baseFee <= 0.1 && load >= 100_000.0
    requires AtMost(bound) <= M1Blocks(s, load, n).baseFee && 0.0 < bound
    ensures AtMost(bound * 2.0) <= M1Blocks(s, load, n + 6).baseFee
  {
    hide M1Blocks, AtMost;
    OneBusy(s, load, n, bound);
    OneBusy(s, load, n + 1, bound * 1.125);
    OneBusy(s, load, n + 2, bound * 1.125 * 1.125);
    OneBusy(s, load, n + 3, bound * 1.125 * 1.125 * 1.125);
    OneBusy(s, load, n + 4, bound * 1.125 * 1.125 * 1.125 * 1.125);
    OneBusy(s, load, n + 5, bound * 1.125 * 1.125 * 1.125 * 1.125 * 1.125);
    AtLeastGrows(bound * 2.0, bound * 1.125 * 1.125 * 1.125 * 1.125 * 1.125 * 1.125);
  }

  /** 2^k, for the few k needed. */
  function Twice(k: nat): real { if k == 0 then 1.0 else 2.0 * Twice(k - 1) }

  lemma TwicePositive(k: nat)
    ensures Twice(k) >= 1.0
  {
  }

  lemma HalfStep(k: nat)
    ensures Twice(k) > 0.0 && Twice(k + 1) > 0.0 && 0.1 / Twice(k) / 2.0 == 0.1 / Twice(k + 1)
  {
    TwicePositive(k);
    var q := 0.1 / Twice(k);
    assert q * Twice(k) == 0.1;
    assert q / 2.0 * (2.0 * Twice(k)) == 0.1;
  }

  lemma {:induction false} IdleDecay(s: M1, k: nat)
    requires 0.0000001 <= s.baseFee <= 0.1
    ensures Twice(k) > 0.0
    ensures M1Blocks(s, 0.0, 6 * k).baseFee <= AtLeast(0.1 / Twice(k))
  {
    hide M1Blocks;
    TwicePositive(k);
    if k == 0 {
      FeeStaysBounded(s, 0.0, 0);
    } else {
      hide Twice, AtLeast;
      IdleDecay(s, k - 1);
      HalfStep(k - 1);
      QuotientNonNegative(0.1, Twice(k - 1));
      SixIdle(s, 6 * (k - 1), 0.1 / Twice(k - 1));
    }
  }

  lemma {:induction false} BusyGrowth(s: M1, load: real, k: nat)
    requires 0.0000001 <= s.baseFee <= 0.1 && load >= 100_000.0
    ensures AtMost(0.0000001 * Twice(k)) <= M1Blocks(s, load, 6 * k).baseFee
  {
    hide M1Blocks;
    if k == 0 {
      FeeStaysBounded(s, load, 0);
    } else {
      hide AtMost;
      TwicePositive(k - 1);
      BusyGrowth(s, load, k - 1);
      SixBusy(s, load, 6 * (k - 1), 0.0000001 * Twice(k - 1));
      assert 0.0000001 * Twice(k - 1) * 2.0 == 0.0000001 * Twice(k);
    }
  }

  lemma TwiceTwenty()
    ensures Twice(20) == 1_048_576.0
  {
    assert Twice(5) == 32.0;
    assert Twice(10) == 1024.0;
    assert Twice(15) == 32768.0;
  }

  lemma {:induction false} StaysAtMinimum(s: M1, n: nat, more: nat)
    requires M1Blocks(s, 0.0, n).baseFee == 0.0000001
    ensures M1Blocks(s, 0.0, n + more).baseFee == 0.0000001
  {
    hide M1Blocks, NextBaseFee;
    if more != 0 {
      StaysAtMinimum(s, n, more - 1);
      NextFee(s, 0.0, n + more - 1);
      IdleStep(0.0000001);
    }
  }

  lemma {:induction false} StaysAtMaximum(s: M1, load: real, n: nat, more: nat)
    requires M1Blocks(s, load, n).baseFee == 0.1 && load >= 100_000.0
    ensures M1Blocks(s, load, n + more).baseFee == 0.1
  {
    hide M1Blocks, NextBaseFee;
    if more != 0 {
      StaysAtMaximum(s, load, n, more - 1);
      NextFee(s, load, n + more - 1);
      BusyStep(0.1, load);
    }
  }

  lemma IdleBlocks(s: M1)
    requires 0.0000001 <= s.baseFee <= 0.1
    ensures M1Blocks(s, 0.0, 2880).baseFee == 0.0000001
  {
    hide M1Blocks;
    IdleDecay(s, 20);
    TwiceTwenty();
    hide Twice;
    assert 0.1 / 1_048_576.0 < 0.0000001;
    FeeStaysBounded(s, 0.0, 120);
    StaysAtMinimum(s, 120, 2760);
  }

  lemma BusyBlocks(s: M1, load: real)
    requires 0.0000001 <= s.baseFee <= 0.1 && load >= 100_000.0
    ensures M1Blocks(s, load, 2880).baseFee == 0.1
  {
    hide M1Blocks;
    BusyGrowth(s, load, 20);
    TwiceTwenty();
    hide Twice;
    FeeStaysBounded(s, load, 120);
    StaysAtMaximum(s, load, 120, 2760);
  }

  lemma FeeOfDay(s: M1, w: World, day: nat)
    requires w.dauCurve != []
    ensures M1Day(s, w, day).baseFee == M1Blocks(s, BytesPerBlock(w, day), 2880).baseFee
  {
    hide M1Blocks, BytesPerBlock, TotalPart, BaseFeePart, Posts, Dms, PostBytes, DmBytes, DailyClaims, StorageTarget, ReactionTarget;
  }

  /** Whatever came before, a day without bytes ends at the minimum fee, and a day at double load or more at the maximum. */
  lemma DayEndsAtBound(w: World, day: nat)
    requires w.dauCurve != [] && Sane(w)
    ensures Posts(w, day) as real * PostBytes(w) + Dms(w, day) as real * DmBytes(w) == 0.0 ==>
              M1Run(w, day + 1).baseFee == 0.0000001
    ensures Posts(w, day) as real * PostBytes(w) + Dms(w, day) as real * DmBytes(w) >= 288_000_000.0 ==>
              M1Run(w, day + 1).baseFee == 0.1
  {
    hide M1Day, M1Blocks, Posts, Dms, PostBytes, DmBytes, Sane;
    M1Bounds(w, day);
    var s, load := M1Run(w, day), BytesPerBlock(w, day);
    FeeOfDay(s, w, day);
    var bytes := Posts(w, day) as real * PostBytes(w) + Dms(w, day) as real * DmBytes(w);
    assert load == bytes / 2880.0;
    if bytes == 0.0 {
      IdleBlocks(s);
    } else if bytes >= 288_000_000.0 {
      assert load >= 100_000.0;
      BusyBlocks(s, load);
    }
  }

  lemma {:induction false} SteadyBlocks(s: M1, n: nat)
    requires 0.0000001 <= s.baseFee <= 0.1
    ensures M1Blocks(s, 50_000.0, n).baseFee == s.baseFee
  {
    hide NextBaseFee, TailReward;
    if n != 0 {
      SteadyBlocks(s, n - 1);
      FeeFollowsLoad(s.baseFee, 50_000.0);
    }
  }

  /** While every day has exactly 50,000 bytes a block, the fee is the one it started with, 1e-5. */
  lemma {:induction false} SteadyFee(w: World, days: nat)
    requires w.dauCurve != []
    requires forall day :: 0 <= day < days ==>
               Posts(w, day) as real * PostBytes(w) + Dms(w, day) as real * DmBytes(w) == 144_000_000.0
    ensures M1Run(w, days).baseFee == 0.00001
  {
    hide M1Day, M1Blocks, Posts, Dms, PostBytes, DmBytes;
    if days != 0 {
      SteadyFee(w, days - 1);
      var s, day := M1Run(w, days - 1), days - 1;
      FeeOfDay(s, w, day);
      var bytes := Posts(w, day) as real * PostBytes(w) + Dms(w, day) as real * DmBytes(w);
      assert BytesPerBlock(w, day) == bytes / 2880.0;
      SteadyBlocks(s, 2880);
    }
  }

  // ------------------------------------------------------------- the M1 pools --

  /** What posts, and direct messages, pay on a day on top of the base fee. */
  function PostRest(w: World, day: nat): real
    requires w.dauCurve != []
  {
    Posts(w, day) as real * (50.0 + 0.0008 * PostBytes(w))
  }

  function DmRest(w: World, day: nat): real
    requires w.dauCurve != []
  {
    Dms(w, day) as real * (0.5 + 0.04 * DmBytes(w))
  }

  ghost function PostRests(w: World, days: nat): real
    requires w.dauCurve != []
  {
    if days == 0 then 0.0 else PostRests(w, days - 1) + PostRest(w, days - 1)
  }

  ghost function DmRests(w: World, days: nat): real
    requires w.dauCurve != []
  {
    if days == 0 then 0.0 else DmRests(w, days - 1) + DmRest(w, days - 1)
  }

  /** Each pool holds or has paid its seed, its share of the rewards and its share of the fees; and what was burned is
      the base fees with three tenths of the rest. */
  ghost predicate M1Accounts(s: M1, posts: real, dms: real, baseFees: real)
  {
    && s.storagePool + s.storagePaid == 100_000.0 + 0.6 * s.minerRevenue + 0.5 * (posts + dms)
    && s.reactionPool + s.reactionPaid == 100_000.0 + 0.4 * s.minerRevenue + 0.2 * posts
    && s.stealthPool == 0.2 * dms
    && s.burned == baseFees + 0.3 * (posts + dms)
  }

  lemma {:induction false} BlocksAccounts(s: M1, bytesPerBlock: real, n: nat, posts: real, dms: real, baseFees: real)
    requires M1Accounts(s, posts, dms, baseFees)
    ensures M1Accounts(M1Blocks(s, bytesPerBlock, n), posts, dms, baseFees)
  {
    hide TailReward, NextBaseFee;
    if n != 0 {
      BlocksAccounts(s, bytesPerBlock, n - 1, posts, dms, baseFees);
    }
  }

  lemma FeesAccounts(s: M1, w: World, day: nat, posts: real, dms: real, baseFees: real)
    requires w.dauCurve != [] && M1Accounts(s, posts, dms, baseFees)
    ensures M1Accounts(M1Dms(M1Posts(s, w, day), w, day), posts + PostRest(w, day), dms + DmRest(w, day),
              baseFees + BaseFeePart(Posts(w, day), s.baseFee, PostBytes(w)) + BaseFeePart(Dms(w, day), s.baseFee, DmBytes(w)))
  {
    hide Posts, Dms, PostBytes, DmBytes, TotalPart, BaseFeePart;
    RemainingPart(Posts(w, day), 50.0, 0.0008, s.baseFee, PostBytes(w));
    RemainingPart(Dms(w, day), 0.5, 0.04, s.baseFee, DmBytes(w));
  }

  lemma PayoutsAccounts(s: M1, w: World, day: nat, posts: real, dms: real, baseFees: real)
    requires w.dauCurve != [] && M1Accounts(s, posts, dms, baseFees)
    ensures M1Accounts(M1Reactions(M1Storage(M1Faucet(s), w, day), w, day), posts, dms, baseFees)
  {
    hide StorageTarget, ReactionTarget, DailyClaims;
  }

  lemma DayAccounts(s: M1, w: World, day: nat, posts: real, dms: real, baseFees: real)
    requires w.dauCurve != [] && M1Accounts(s, posts, dms, baseFees)
    ensures var baseFee := M1Mined(s, w, day).baseFee;
      M1Accounts(M1Day(s, w, day), posts + PostRest(w, day), dms + DmRest(w, day),
        baseFees + BaseFeePart(Posts(w, day), baseFee, PostBytes(w)) + BaseFeePart(Dms(w, day), baseFee, DmBytes(w)))
  {
    hide M1Accounts, M1Blocks, M1Posts, M1Dms, M1Faucet, M1Storage, M1Reactions, PostRest, DmRest, BaseFeePart, M1Mined;
    BlocksAccounts(s, BytesPerBlock(w, day), BLOCKS_PER_DAY, posts, dms, baseFees);
    MinedAccounts(s, w, day, posts, dms, baseFees);
    var mined := M1Mined(s, w, day);
    FeesAccounts(mined, w, day, posts, dms, baseFees);
    PayoutsAccounts(M1Dms(M1Posts(mined, w, day), w, day), w, day, posts + PostRest(w, day), dms + DmRest(w, day),
      baseFees + BaseFeePart(Posts(w, day), mined.baseFee, PostBytes(w)) + BaseFeePart(Dms(w, day), mined.baseFee, DmBytes(w)));
  }

  /** On every day of every M1 run, whatever the parameters, the pools account for all they were credited. */
  lemma {:induction false} M1PoolAccounts(w: World, days: nat)
    requires w.dauCurve != []
    ensures M1Accounts(M1Run(w, days), PostRests(w, days), DmRests(w, days), PostFeesBurned(w, days) + DmFeesBurned(w, days))
  {
    hide M1Accounts, M1Day, M1Mined, PostRest, DmRest, BaseFeePart, Posts, Dms, PostBytes, DmBytes;
    if days == 0 {
      GenesisAccounts();
    } else {
      var day := days - 1;
      var posts, dms, fees := PostRests(w, day), DmRests(w, day), PostFeesBurned(w, day) + DmFeesBurned(w, day);
      M1PoolAccounts(w, day);
      DayAccounts(M1Run(w, day), w, day, posts, dms, fees);
      hide M1Run;
      assert PostFeesBurned(w, days) + DmFeesBurned(w, days)
          == fees + BaseFeePart(Posts(w, day), DayFee(w, day), PostBytes(w)) + BaseFeePart(Dms(w, day), DayFee(w, day), DmBytes(w));
    }
  }

  lemma MinedAccounts(s: M1, w: World, day: nat, posts: real, dms: real, baseFees: real)
    requires w.dauCurve != [] && M1Accounts(M1Blocks(s, BytesPerBlock(w, day), BLOCKS_PER_DAY), posts, dms, baseFees)
    ensures M1Accounts(M1Mined(s, w, day), posts, dms, baseFees)
  {
    hide M1Blocks, BytesPerBlock;
  }

  lemma GenesisAccounts()
    ensures M1Accounts(M1_GENESIS, 0.0, 0.0, 0.0)
  {
  }

  lemma ShareNonNegative(pool: real)
    requires pool >= 0.0
    ensures Min(1.0, pool / 500_000.0) >= 0.0
  {
    QuotientNonNegative(pool, 500_000.0);
  }

  lemma StorageTargetNonNegative(w: World, day: nat, pool: real)
    requires w.dauCurve != [] && Sane(w) && pool >= 0.0
    ensures StorageTarget(w, day, pool) >= 0.0
  {
    CountsNonNegative(w, day);
    hide Posts, PostBytes, Min;
    ShareNonNegative(pool);
    var bytes := Posts(w, day) as real * PostBytes(w);
    ProductNonNegative(Posts(w, day) as real, PostBytes(w));
    var due := bytes * 30.0 * 0.000000005 * 24.0;
    ProductNonNegative(due, w.bondFactor);
    ProductNonNegative(due * w.bondFactor, Min(1.0, pool / 500_000.0));
  }

  lemma TwoProducts(a: real, b: real, gamma: real, decay: real)
    requires a >= 0.0 && b >= 0.0 && gamma >= 0.0 && decay >= 0.0
    ensures Payouts(a, b, gamma, decay) >= 0.0
  {
    ProductNonNegative(a, gamma);
    ProductNonNegative(a * gamma, decay);
    ProductNonNegative(b, gamma);
  }

  lemma GammaNonNegative(pool: real, issuance: real)
    requires pool >= 0.0
    ensures Max(issuance, 0.000000001) > 0.0
    ensures pool / Max(issuance, 0.000000001) >= 0.0
  {
    QuotientNonNegative(pool, Max(issuance, 0.000000001));
  }

  lemma ReactionTargetNonNegative(w: World, day: nat, pool: real, issuance: real)
    requires w.dauCurve != [] && Sane(w) && pool >= 0.0
    ensures ReactionTarget(w, day, pool, issuance) >= 0.0
  {
    GammaNonNegative(pool, issuance);
    hide Max, Legitimate, Payouts;
    var legitimate, gamma := Legitimate(w, day) as real, pool / Max(issuance, 0.000000001);
    var decay := if w.reactionsPerDau > 0.0 then w.reactionDecay else 1.0;
    assert legitimate >= 0.0 by {
      CountsNonNegative(w, day);
    }
    TwoProducts(legitimate, w.sybilReactors as real, gamma, decay);
  }

  ghost predicate M1Paid(s: M1) { s.storagePaid >= 0.0 && s.reactionPaid >= 0.0 }

  lemma {:induction false} BlocksKeepPaid(s: M1, bytesPerBlock: real, n: nat)
    ensures var t := M1Blocks(s, bytesPerBlock, n); t.storagePaid == s.storagePaid && t.reactionPaid == s.reactionPaid
  {
    hide TailReward, NextBaseFee;
    if n != 0 {
      BlocksKeepPaid(s, bytesPerBlock, n - 1);
    }
  }

  lemma RewardsPaid(s: M1, w: World, day: nat)
    requires w.dauCurve != [] && Sane(w) && M1Bounded(s)
    ensures var t := M1Reactions(M1Storage(s, w, day), w, day); t.storagePaid >= s.storagePaid && t.reactionPaid >= s.reactionPaid
  {
    hide StorageTarget, ReactionTarget, Sane;
    StorageTargetNonNegative(w, day, s.storagePool);
    ReactionTargetNonNegative(w, day, s.reactionPool, M1Storage(s, w, day).issuance);
  }

  lemma FeesKeepPaid(s: M1, w: World, day: nat)
    requires w.dauCurve != []
    ensures var t := M1Faucet(M1Dms(M1Posts(s, w, day), w, day)); t.storagePaid == s.storagePaid && t.reactionPaid == s.reactionPaid
  {
    hide Posts, Dms, PostBytes, DmBytes, TotalPart, BaseFeePart, DailyClaims;
  }

  /** With sane parameters the payouts of every day of every M1 run are non-negative. */
  lemma {:induction false} M1PaysOut(w: World, days: nat)
    requires w.dauCurve != [] && Sane(w)
    ensures M1Paid(M1Run(w, days))
    ensures days > 0 ==> var s, t := M1Run(w, days - 1), M1Run(w, days); s.storagePaid <= t.storagePaid && s.reactionPaid <= t.reactionPaid
  {
    hide M1Bounded, M1Blocks, M1Posts, M1Dms, M1Faucet, M1Storage, M1Reactions, Sane;
    if days != 0 {
      var s, day := M1Run(w, days - 1), days - 1;
      var mined := M1Mined(s, w, day);
      var before := M1Faucet(M1Dms(M1Posts(mined, w, day), w, day));
      M1PaysOut(w, day);
      M1Bounds(w, day);
      M1MinedBounded(s, w, day);
      M1FeesBounded(mined, w, day);
      M1FaucetBounded(M1Dms(M1Posts(mined, w, day), w, day));
      BlocksKeepPaid(s, BytesPerBlock(w, day), BLOCKS_PER_DAY);
      FeesKeepPaid(mined, w, day);
      RewardsPaid(before, w, day);
    }
  }

  // --------------------------------------------------- rewards, day by day --

  /** Block rewards with the tail, below a height. */
  ghost function TailMined(height: nat): real
  {
    if height == 0 then 0.0 else TailMined(height - 1) + TailReward(height - 1)
  }

  /** 5, 2.5, 1.25 and 0.625 in the first four eras of 4,204,800 blocks, and 0.5 ever after. */
  lemma TailRewardExactly(height: nat)
    ensures TailReward(height) ==
            if height < 4_204_800 then 5.0 else if height < 8_409_600 then 2.5
            else if height < 12_614_400 then 1.25 else if height < 16_819_200 then 0.625 else 0.5
  {
    var era := height / HALVING;
    if era < 4 {
      EarlyRewards(era);
    } else if era < 64 {
      LateRewards(era);
    }
  }

  lemma EarlyRewards(era: nat)
    requires era < 4
    ensures Pow(2, era) == if era == 0 then 1 else if era == 1 then 2 else if era == 2 then 4 else 8
  {
    assert Pow(2, 1) == 2 && Pow(2, 2) == 4 && Pow(2, 3) == 8;
  }

  lemma LateRewards(era: nat)
    requires era >= 4
    ensures Pow(2, era) >= 16 && INITIAL_REWARD / Pow(2, era) as real < 0.5
  {
    PowMonotone(2, 4, era);
    assert Pow(2, 4) == 16;
    var q, p := INITIAL_REWARD / Pow(2, era) as real, Pow(2, era) as real;
    assert q * p == 5.0;
    if q >= 0.5 {
      ProductNonNegative(q - 0.5, p);
    }
  }

  lemma {:induction false} BlocksAreTailMined(s: M1, load: real, n: nat)
    ensures M1Blocks(s, load, n).minerRevenue - s.minerRevenue
         == 0.5 * (TailMined(s.blockHeight + n) - TailMined(s.blockHeight))
  {
    hide TailReward, NextBaseFee;
    if n != 0 {
      BlocksAreTailMined(s, load, n - 1);
    }
  }

  lemma RevenueOfDay(s: M1, w: World, day: nat)
    requires w.dauCurve != []
    ensures var t := M1Day(s, w, day);
      && t.minerRevenue == M1Blocks(s, BytesPerBlock(w, day), 2880).minerRevenue
      && t.blockHeight == s.blockHeight + 2880
  {
    hide M1Blocks, BytesPerBlock, TotalPart, BaseFeePart, Posts, Dms, PostBytes, DmBytes, DailyClaims, StorageTarget, ReactionTarget;
  }

  /** Miner revenue in M1 is half of all block rewards with the tail, whatever the parameters. */
  lemma {:induction false} M1MinerRevenue(w: World, days: nat)
    requires w.dauCurve != []
    ensures M1Run(w, days).blockHeight == 2880 * days
    ensures M1Run(w, days).minerRevenue == 0.5 * TailMined(2880 * days)
  {
    hide M1Day, TailMined;
    if days == 0 {
      NothingTailMined();
    } else {
      M1MinerRevenue(w, days - 1);
      RevenueOfDay(M1Run(w, days - 1), w, days - 1);
      BlocksAreTailMined(M1Run(w, days - 1), BytesPerBlock(w, days - 1), 2880);
    }
  }

  lemma NothingTailMined()
    ensures TailMined(0) == 0.0
  {
  }

  lemma FaucetStep(faucetMinted: real, k: nat)
    requires k <= 20 && faucetMinted == 5000.0 * k as real
    ensures DailyClaims(faucetMinted) == if faucetMinted < 100_000.0 then 50 else 0
  {
    var ratio := (FAUCET_CAP - faucetMinted) / FAUCET_REWARD;
    assert ratio == (50 * (20 - k)) as real;
    assert Trunc(ratio) == 50 * (20 - k);
  }

  lemma {:induction false} BlocksKeepFaucet(s: M1, load: real, n: nat)
    ensures M1Blocks(s, load, n).faucetMinted == s.faucetMinted
  {
    hide TailReward, NextBaseFee;
    if n != 0 {
      BlocksKeepFaucet(s, load, n - 1);
    }
  }

  lemma FaucetOfDay(s: M1, w: World, day: nat)
    requires w.dauCurve != []
    ensures M1Day(s, w, day).faucetMinted ==
            s.faucetMinted + if s.faucetMinted < 100_000.0 then DailyClaims(s.faucetMinted) as real * 100.0 else 0.0
  {
    hide M1Blocks, BytesPerBlock, TotalPart, BaseFeePart, Posts, Dms, PostBytes, DmBytes, DailyClaims, StorageTarget, ReactionTarget;
    BlocksKeepFaucet(s, BytesPerBlock(w, day), BLOCKS_PER_DAY);
  }

  /** The faucet mints 5000 a day for twenty days, and nothing afterwards. */
  lemma {:induction false} FaucetSchedule(w: World, days: nat)
    requires w.dauCurve != []
    ensures M1Run(w, days).faucetMinted == 5000.0 * (if days < 20 then days else 20) as real
  {
    hide M1Day, DailyClaims;
    if days != 0 {
      var before := if days - 1 < 20 then days - 1 else 20;
      FaucetSchedule(w, days - 1);
      FaucetOfDay(M1Run(w, days - 1), w, days - 1);
      FaucetStep(M1Run(w, days - 1).faucetMinted, before);
    }
  }

  lemma {:induction false} BlocksBurnNothing(s: M1, load: real, n: nat)
    ensures M1Blocks(s, load, n).burned == s.burned
  {
    hide TailReward, NextBaseFee;
    if n != 0 {
      BlocksBurnNothing(s, load, n - 1);
    }
  }

  lemma BurnedOfDay(s: M1, w: World, day: nat)
    requires w.dauCurve != []
    ensures var t, fee := M1Day(s, w, day), M1Mined(s, w, day).baseFee;
      && t.baseFee == fee
      && t.burned == s.burned + BaseFeePart(Posts(w, day), fee, PostBytes(w)) + BaseFeePart(Dms(w, day), fee, DmBytes(w))
           + 0.3 * (PostRest(w, day) + DmRest(w, day))
  {
    hide M1Blocks, BytesPerBlock, TotalPart, BaseFeePart, Posts, Dms, PostBytes, DmBytes, DailyClaims, StorageTarget, ReactionTarget;
    BlocksBurnNothing(s, BytesPerBlock(w, day), BLOCKS_PER_DAY);
    var fee := M1Mined(s, w, day).baseFee;
    RemainingPart(Posts(w, day), 50.0, 0.0008, fee, PostBytes(w));
    RemainingPart(Dms(w, day), 0.5, 0.04, fee, DmBytes(w));
  }

  /** What a day burns in M1, at the base fee the day ends with: the base fee on every byte, and three tenths of the 50 and
      0.0008 a byte for posts and the 0.5 and 0.04 a byte for messages. The base-fee counter has the share of the posts. */
  lemma M1BurnedExactly(w: World, day: nat)
    requires w.dauCurve != []
    ensures var s, t := M1Run(w, day), M1Run(w, day + 1);
      var posts, dms := Posts(w, day) as real, Dms(w, day) as real;
      var postBytes, dmBytes := w.avgPostKb * 1024.0, w.avgDmKb * 1024.0;
      && t.baseFeeBurned - s.baseFeeBurned == posts * t.baseFee * postBytes
      && t.burned - s.burned == posts * t.baseFee * postBytes + dms * t.baseFee * dmBytes
           + 0.3 * (posts * (50.0 + 0.0008 * postBytes) + dms * (0.5 + 0.04 * dmBytes))
  {
    hide M1Day, Posts, Dms, M1Mined;
    M1Unfold(w, day);
    hide M1Run;
    BurnedOfDay(M1Run(w, day), w, day);
    CounterDay(M1Run(w, day), w, day);
  }

  lemma M1Unfold(w: World, day: nat)
    requires w.dauCurve != []
    ensures M1Run(w, day + 1) == M1Day(M1Run(w, day), w, day)
  {
    hide M1Day;
  }

  lemma PaidToday(s: M1, w: World, day: nat)
    requires w.dauCurve != []
    ensures var t := M1Reactions(M1Storage(s, w, day), w, day);
      var storage, reactions := t.storagePaid - s.storagePaid, t.reactionPaid - s.reactionPaid;
      && storage == Min(StorageTarget(w, day, t.storagePool + storage), t.storagePool + storage)
      && reactions == Min(ReactionTarget(w, day, t.reactionPool + reactions, t.issuance - reactions), (t.reactionPool + reactions) * 0.05)
  {
    hide StorageTarget, ReactionTarget;
  }

  /** The payouts of a day in M1, from the pools and the issuance just before: storage pays 5e-9 a byte for thirty days
      of posts, challenged every hour, times the bond factor, times the fill of the pool up to 500,000; reactions pay the
      pool over the issuance each, times the decay for those of real users. Storage pays at most the pool, reactions at
      most a twentieth of theirs. */
  lemma M1PayoutsExactly(w: World, day: nat)
    requires w.dauCurve != []
    ensures var s, t := M1Run(w, day), M1Run(w, day + 1);
      var storage, reactions := t.storagePaid - s.storagePaid, t.reactionPaid - s.reactionPaid;
      var storagePool, reactionPool, issuance := t.storagePool + storage, t.reactionPool + reactions, t.issuance - reactions;
      var fill := if storagePool < 500_000.0 then storagePool / 500_000.0 else 1.0;
      var due := Posts(w, day) as real * (w.avgPostKb * 1024.0) * 30.0 * 0.000000005 * 24.0 * w.bondFactor * fill;
      var gamma := reactionPool / (if issuance > 0.000000001 then issuance else 0.000000001);
      var decay := if w.reactionsPerDau > 0.0 then w.reactionDecay else 1.0;
      var earned := Legitimate(w, day) as real * gamma * decay + w.sybilReactors as real * gamma;
      && storage == (if due < storagePool then due else storagePool)
      && reactions == (if earned < reactionPool * 0.05 then earned else reactionPool * 0.05)
  {
    hide M1Blocks, M1Mined, M1Posts, M1Dms, M1Faucet, Posts, Legitimate, M1Storage, M1Reactions, StorageTarget, ReactionTarget;
    var s, t := M1Run(w, day), M1Run(w, day + 1);
    var before := M1Faucet(M1Dms(M1Posts(M1Mined(s, w, day), w, day), w, day));
    PaidSame(s, w, day);
    PaidToday(before, w, day);
    hide M1Run;
    var storage, reactions := t.storagePaid - s.storagePaid, t.reactionPaid - s.reactionPaid;
    StorageTargetLiteral(w, day, t.storagePool + storage);
    ReactionTargetLiteral(w, day, t.reactionPool + reactions, t.issuance - reactions);
  }

  lemma PaidSame(s: M1, w: World, day: nat)
    requires w.dauCurve != []
    ensures var before := M1Faucet(M1Dms(M1Posts(M1Mined(s, w, day), w, day), w, day));
      before.storagePaid == s.storagePaid && before.reactionPaid == s.reactionPaid
  {
    hide M1Blocks, BytesPerBlock, M1Posts, M1Dms, M1Faucet;
    BlocksKeepPaid(s, BytesPerBlock(w, day), BLOCKS_PER_DAY);
    FeesKeepPaid(M1Mined(s, w, day), w, day);
  }

  lemma StorageTargetLiteral(w: World, day: nat, pool: real)
    requires w.dauCurve != []
    ensures var fill := if pool < 500_000.0 then pool / 500_000.0 else 1.0;
      StorageTarget(w, day, pool)
      == Posts(w, day) as real * (w.avgPostKb * 1024.0) * 30.0 * 0.000000005 * 24.0 * w.bondFactor * fill
  {
    hide Posts;
    assert pool / 500_000.0 < 1.0 <==> pool < 500_000.0;
    assert Min(1.0, pool / 500_000.0) == if pool < 500_000.0 then pool / 500_000.0 else 1.0;
  }

  lemma ReactionTargetLiteral(w: World, day: nat, pool: real, issuance: real)
    requires w.dauCurve != []
    ensures var gamma := pool / (if issuance > 0.000000001 then issuance else 0.000000001);
      var decay := if w.reactionsPerDau > 0.0 then w.reactionDecay else 1.0;
      ReactionTarget(w, day, pool, issuance) == Legitimate(w, day) as real * gamma * decay + w.sybilReactors as real * gamma
  {
    hide Legitimate;
  }

  /** The payouts of a day in M0: 1e-12 a byte for thirty days of posts, challenged every hour, and 1 a reaction, each at
      most its pool. */
  lemma M0PayoutsExactly(w: World, day: nat)
    requires w.dauCurve != []
    ensures var s, t := M0Run(w, day), M0Run(w, day + 1);
      var storage, reactions := t.storagePaid - s.storagePaid, t.reactionPaid - s.reactionPaid;
      var storagePool, reactionPool := t.storagePool + storage, t.reactionPool + reactions;
      var due := Posts(w, day) as real * (w.avgPostKb * 1024.0) * 30.0 * 0.000000000001 * 24.0;
      var earned := (Legitimate(w, day) + w.sybilReactors) as real;
      && storage == (if due < storagePool then due else storagePool)
      && reactions == (if earned < reactionPool then earned else reactionPool)
  {
    hide M0Blocks, Posts, Legitimate, M0PostTotal, M0DmTotal, M0Run;
    var s := M0Run(w, day);
    M0Unfold(w, day);
    BlocksPayNothing(s, BLOCKS_PER_DAY);
  }

  lemma M0Unfold(w: World, day: nat)
    requires w.dauCurve != []
    ensures M0Run(w, day + 1) == M0Day(M0Run(w, day), w, day)
  {
    hide M0Day;
  }

  lemma {:induction false} BlocksPayNothing(s: M0, n: nat)
    ensures var t := M0Blocks(s, n);
      t.storagePaid == s.storagePaid && t.reactionPaid == s.reactionPaid && t.burned == s.burned &&
      t.storagePool == s.storagePool && t.reactionPool == s.reactionPool
  {
    hide BlockReward;
    if n != 0 {
      BlocksPayNothing(s, n - 1);
    }
  }

  /** What posts, and direct messages, were charged in M0. */
  ghost function M0PostFees(w: World, days: nat): real
    requires w.dauCurve != []
  {
    if days == 0 then 0.0
    else M0PostFees(w, days - 1) + Posts(w, days - 1) as real * (100.0 + 0.001 * (w.avgPostKb * 1024.0))
  }

  ghost function M0DmFees(w: World, days: nat): real
    requires w.dauCurve != []
  {
    if days == 0 then 0.0
    else M0DmFees(w, days - 1) + Dms(w, days - 1) as real * (1.0 + 0.05 * (w.avgDmKb * 1024.0))
  }

  lemma M0DayFees(s: M0, w: World, day: nat)
    requires w.dauCurve != []
    ensures var t, post, dm := M0Day(s, w, day), M0PostTotal(w, day), M0DmTotal(w, day);
      && t.burned == s.burned + post + dm
      && t.storagePool + t.storagePaid == s.storagePool + s.storagePaid + 0.8 * (post + dm)
      && t.reactionPool + t.reactionPaid == s.reactionPool + s.reactionPaid + 0.1 * post
  {
    hide M0Blocks, M0PostTotal, M0DmTotal, M0StorageTarget, M0ReactionTarget;
    BlocksPayNothing(s, BLOCKS_PER_DAY);
  }

  lemma M0Totals(w: World, day: nat)
    requires w.dauCurve != []
    ensures M0PostFees(w, day + 1) == M0PostFees(w, day) + M0PostTotal(w, day)
    ensures M0DmFees(w, day + 1) == M0DmFees(w, day) + M0DmTotal(w, day)
  {
    hide Posts, Dms;
  }

  /** On every day of every M0 run all fees are burned; four fifths of them were credited to storage, and a tenth of those
      on posts to reactions. */
  lemma {:induction false} M0FeesExactly(w: World, days: nat)
    requires w.dauCurve != []
    ensures var s, posts, dms := M0Run(w, days), M0PostFees(w, days), M0DmFees(w, days);
      && s.burned == posts + dms
      && s.storagePool + s.storagePaid == 1_000_000.0 + 0.8 * (posts + dms)
      && s.reactionPool + s.reactionPaid == 10_000_000.0 + 0.1 * posts
  {
    hide M0Day, M0PostTotal, M0DmTotal;
    if days != 0 {
      hide M0PostFees, M0DmFees;
      M0FeesExactly(w, days - 1);
      M0DayFees(M0Run(w, days - 1), w, days - 1);
      M0Totals(w, days - 1);
    }
  }

  /** Daily counts: users follow the curve and stay at its last value, counts per user are cut to whole numbers, and spam
      comes on top. */
  lemma CountsExactly(w: World, day: nat)
    requires w.dauCurve != [] && Sane(w)
    ensures var users := (if day < |w.dauCurve| then w.dauCurve[day] else w.dauCurve[|w.dauCurve| - 1]) as real;
      && 0.0 <= users * w.postsPerDau - (Posts(w, day) - w.spamPosts) as real < 1.0
      && 0.0 <= users * w.dmsPerDau - Dms(w, day) as real < 1.0
      && 0.0 <= users * w.reactionsPerDau - Legitimate(w, day) as real < 1.0
  {
    var users := Dau(w, day) as real;
    ProductNonNegative(users, w.postsPerDau);
    ProductNonNegative(users, w.dmsPerDau);
    ProductNonNegative(users, w.reactionsPerDau);
  }

  // ---------------------------------------------- the header's claim, for M1 --

  /** Fees credited to pools on one day: seven tenths of everything but the base fee. */
  function FeesToPools(w: World, day: nat): real
    requires w.dauCurve != []
  {
    0.70 * PostRest(w, day) + 0.70 * DmRest(w, day)
  }

  ghost function AllFeesToPools(w: World, days: nat): real
    requires w.dauCurve != []
  {
    if days == 0 then 0.0 else AllFeesToPools(w, days - 1) + FeesToPools(w, days - 1)
  }

  ghost function Gap(s: M1): real { s.minted - s.burned - s.issuance }

  lemma {:induction false} BlocksKeepGap(s: M1, bytesPerBlock: real, n: nat)
    ensures Gap(M1Blocks(s, bytesPerBlock, n)) == Gap(s)
  {
    hide TailReward, NextBaseFee;
    if n != 0 {
      BlocksKeepGap(s, bytesPerBlock, n - 1);
    }
  }

  lemma FeesWidenGap(s: M1, w: World, day: nat)
    requires w.dauCurve != []
    ensures Gap(M1Dms(M1Posts(s, w, day), w, day)) == Gap(s) + FeesToPools(w, day)
  {
    hide Posts, Dms, PostBytes, DmBytes, TotalPart, BaseFeePart;
    RemainingPart(Posts(w, day), 50.0, 0.0008, s.baseFee, PostBytes(w));
    RemainingPart(Dms(w, day), 0.5, 0.04, s.baseFee, DmBytes(w));
  }

  lemma PayoutsKeepGap(s: M1, w: World, day: nat)
    requires w.dauCurve != []
    ensures Gap(M1Reactions(M1Storage(M1Faucet(s), w, day), w, day)) == Gap(s)
  {
    hide StorageTarget, ReactionTarget, DailyClaims;
  }

  /** In M1, minted minus burned exceeds issuance by exactly the fees that went into pools. */
  lemma {:induction false} M1Gap(w: World, days: nat)
    requires w.dauCurve != []
    ensures Gap(M1Run(w, days)) == AllFeesToPools(w, days)
  {
    hide M1Blocks, M1Posts, M1Dms, M1Faucet, M1Storage, M1Reactions, FeesToPools;
    if days != 0 {
      var s, day := M1Run(w, days - 1), days - 1;
      M1Gap(w, days - 1);
      BlocksKeepGap(s, BytesPerBlock(w, day), BLOCKS_PER_DAY);
      FeesWidenGap(M1Mined(s, w, day), w, day);
      PayoutsKeepGap(M1Dms(M1Posts(M1Mined(s, w, day), w, day), w, day), w, day);
    }
  }

  ghost predicate Silent(w: World, days: nat)
    requires w.dauCurve != []
  {
    forall day :: 0 <= day < days ==> Posts(w, day) == 0 && Dms(w, day) == 0
  }

  lemma FeesPositive(w: World, day: nat)
    requires w.dauCurve != [] && Sane(w)
    ensures FeesToPools(w, day) >= 0.0
    ensures FeesToPools(w, day) == 0.0 <==> Posts(w, day) == 0 && Dms(w, day) == 0
  {
    hide Posts, Dms, PostBytes, DmBytes, Sane;
    CountsNonNegative(w, day);
    ScaledSign(Posts(w, day), 50.0 + 0.0008 * PostBytes(w));
    ScaledSign(Dms(w, day), 0.5 + 0.04 * DmBytes(w));
  }

  lemma ScaledSign(n: int, x: real)
    requires n >= 0 && x > 0.0
    ensures n as real * x >= 0.0 && (n as real * x == 0.0 <==> n == 0)
  {
  }

  lemma {:induction false} SilentMeansNoFees(w: World, days: nat)
    requires w.dauCurve != [] && Sane(w)
    ensures AllFeesToPools(w, days) >= 0.0
    ensures AllFeesToPools(w, days) == 0.0 <==> Silent(w, days)
  {
    hide FeesToPools, Posts, Dms, Sane;
    if days != 0 {
      SilentMeansNoFees(w, days - 1);
      FeesPositive(w, days - 1);
    }
  }

  /** The file's header equates issuance with minted minus burned. In M1 that holds exactly while nobody has posted or
      sent a message. */
  lemma M1HeaderClaim(w: World, days: nat)
    requires w.dauCurve != [] && Sane(w)
    ensures var s := M1Run(w, days);
      s.issuance == s.minted - s.burned <==> Silent(w, days)
  {
    M1Gap(w, days);
    SilentMeansNoFees(w, days);
  }
}
