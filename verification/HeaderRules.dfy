/** The validity of a header against its parent, following section 4.3.4 (Block Header Validity) of the
    Ethereum Yellow Paper, and the gas limit and difficulty a block producer chooses. */
module HeaderRules {
  import opened Types

  datatype Error =
    | ExtraTooLong | LargeBlockTime | FutureBlock | ZeroBlockTime | InvalidDifficulty | GasLimitAboveCap
    | GasUsedAboveLimit | InvalidGasLimit | InvalidNumber | InvalidSeal

  const TWO_63 := 0x8000_0000_0000_0000
  const TWO_64 := 0x1_0000_0000_0000_0000
  const MAX_BIG_256 := 0xFFFF_FFFF_FFFF_FFFF_FFFF_FFFF_FFFF_FFFF_FFFF_FFFF_FFFF_FFFF_FFFF_FFFF_FFFF_FFFF
  const MAX_EXTRA := 32
  const BOUND_DIVISOR := 1024
  const MIN_GAS_LIMIT := 5000
  const TARGET_GAS_LIMIT := 41424776
  const MIN_DIFFICULTY := 131072
  const DIFFICULTY_DIVISOR := 2048

  // ---------- 64-bit words ----------

  function ToUint64(x: int): (r: int)
    ensures 0 <= r < TWO_64 && (0 <= x < TWO_64 ==> r == x)
  {
    x % TWO_64
  }

  function ToInt64(x: int): (r: int)
    ensures -TWO_63 <= r < TWO_63 && (-TWO_63 <= x < TWO_63 ==> r == x)
  {
    (x + TWO_63) % TWO_64 - TWO_63
  }

  // ---------- difficulty ----------

  function Pow2(n: nat): (r: int)
    ensures r >= 1
  {
    if n == 0 then 1 else 2 * Pow2(n - 1)
  }

  /** The steps of 1/2048 the parent's difficulty moves by; never fewer than -99 of them. */
  function Steps(time: int, parent: Header): int {
    var x := (if parent.hasUncles then 2 else 1) - (time - parent.time) / 9;
    if x < -99 then -99 else x
  }

  /** The exponential part, delayed by three million blocks. */
  function Bomb(parentNumber: int): (r: int)
    ensures r >= 0
  {
    var fake := if parentNumber >= 2999999 then parentNumber - 2999999 else 0;
    var period := fake / 100000;
    if period > 1 then Pow2(period - 2) else 0
  }

  /** The difficulty of a child created at the given time, as EIP-100 has it. */
  function CalcDifficulty(time: int, parent: Header): int {
    var x := parent.difficulty + parent.difficulty / DIFFICULTY_DIVISOR * Steps(time, parent);
    (if x < MIN_DIFFICULTY then MIN_DIFFICULTY else x) + Bomb(parent.number)
  }

  /** The difficulty is at least the minimum, and apart from the exponential part and the minimum it
      stays within 99/2048 below and 2/2048 above that of the parent when time does not run backwards. */
  lemma DifficultyBounds(time: int, parent: Header)
    requires parent.difficulty >= 0
    ensures CalcDifficulty(time, parent) >= 131072
    ensures CalcDifficulty(time, parent) - Bomb(parent.number) >= parent.difficulty - 99 * (parent.difficulty / 2048)
    ensures time >= parent.time && parent.difficulty >= 131072 ==>
              CalcDifficulty(time, parent) - Bomb(parent.number) <= parent.difficulty + 2 * (parent.difficulty / 2048)
  {
    var y := parent.difficulty / DIFFICULTY_DIVISOR;
    MulMonotone(y, -99, Steps(time, parent));
    if time >= parent.time {
      MulMonotone(y, Steps(time, parent), 2);
    }
  }

  /** A later child is never more difficult. */
  lemma DifficultyFalls(early: int, late: int, parent: Header)
    requires early <= late && parent.difficulty >= 0
    ensures CalcDifficulty(late, parent) <= CalcDifficulty(early, parent)
  {
    MulMonotone(parent.difficulty / DIFFICULTY_DIVISOR, Steps(late, parent), Steps(early, parent));
  }

  /** A child is more difficult than its parent, the exponential part aside, exactly when it follows within nine
      seconds, or within eighteen if the parent has uncles; in the nine seconds after that it is as difficult. */
  lemma DifficultyTurns(time: int, parent: Header)
    requires parent.difficulty >= 131072 && time >= parent.time
    ensures var core, after := CalcDifficulty(time, parent) - Bomb(parent.number), time - parent.time;
            var grace := if parent.hasUncles then 18 else 9;
            && (core > parent.difficulty <==> after < grace)
            && (grace <= after < grace + 9 ==> core == parent.difficulty)
            && (after < 9 ==> core == parent.difficulty + grace / 9 * (parent.difficulty / 2048))
  {
    var y, x := parent.difficulty / 2048, Steps(time, parent);
    if x >= 1 {
      MulMonotone(y, 1, x);
    } else if x <= -1 {
      MulMonotone(y, x, -1);
    }
  }

  /** Every nine seconds take one step off, until the minimum or 99 steps are reached. */
  lemma DifficultyStep(time: int, parent: Header)
    requires parent.difficulty >= 0 && time + 9 - parent.time < 909
    requires CalcDifficulty(time + 9, parent) - Bomb(parent.number) > 131072
    ensures CalcDifficulty(time, parent) - CalcDifficulty(time + 9, parent) == parent.difficulty / 2048
  {
    var y, x := parent.difficulty / 2048, Steps(time + 9, parent);
    assert Steps(time, parent) == x + 1;
    assert y * (x + 1) == y * x + y;
  }

  /** A child that comes after a quarter of an hour has lost 99 steps or reached the minimum. */
  lemma DifficultyFloor(time: int, parent: Header)
    requires parent.difficulty >= 0 && time - parent.time >= 909
    ensures var low := parent.difficulty - 99 * (parent.difficulty / 2048);
            CalcDifficulty(time, parent) - Bomb(parent.number) == if low < 131072 then 131072 else low
  {
  }

  /** Uncles of the parent are worth one step. */
  lemma UnclesAddStep(time: int, parent: Header)
    requires parent.difficulty >= 0 && time - parent.time < 909
    requires CalcDifficulty(time, parent.(hasUncles := false)) - Bomb(parent.number) > 131072
    ensures CalcDifficulty(time, parent.(hasUncles := true)) - CalcDifficulty(time, parent.(hasUncles := false)) ==
            parent.difficulty / 2048
  {
    var y, x := parent.difficulty / 2048, Steps(time, parent.(hasUncles := false));
    assert Steps(time, parent.(hasUncles := true)) == x + 1;
    assert y * (x + 1) == y * x + y;
  }

  /** The exponential part begins with block 3200000 and doubles every hundred thousand blocks. */
  lemma BombDoubles(parentNumber: int)
    ensures parentNumber < 3199999 ==> Bomb(parentNumber) == 0
    ensures 3199999 <= parentNumber < 3299999 ==> Bomb(parentNumber) == 1
    ensures parentNumber >= 3199999 ==> Bomb(parentNumber + 100000) == 2 * Bomb(parentNumber)
  {
  }

  lemma MulMonotone(y: int, a: int, b: int)
    requires y >= 0 && a <= b
    ensures y * a <= y * b
  {
  }

  // ---------- the checks ----------

  /** The gas checks of a header against its parent, in 64-bit arithmetic. */
  function VerifyGas(header: Header, parent: Header): Option<Error> {
    if header.gasLimit > TWO_63 - 1 then Some(GasLimitAboveCap)
    else if header.gasUsed > header.gasLimit then Some(GasUsedAboveLimit)
    else
      var diff := ToInt64(ToInt64(parent.gasLimit) - ToInt64(header.gasLimit));
      var size := if diff < 0 then ToInt64(-diff) else diff;
      if ToUint64(size) >= parent.gasLimit / BOUND_DIVISOR || header.gasLimit < MIN_GAS_LIMIT then Some(InvalidGasLimit)
      else None
  }

  /** Checks a header against its parent.  The clock and the verdict on the seal are inputs. */
  function VerifyHeader(header: Header, parent: Header, uncle: bool, seal: bool, latest: int,
      sealed: bool): Option<Error> {
    if header.extra > MAX_EXTRA then Some(ExtraTooLong)
    else if uncle && header.time > MAX_BIG_256 then Some(LargeBlockTime)
    else if !uncle && header.time > latest then Some(FutureBlock)
    else if header.time < parent.time then Some(ZeroBlockTime)
    else if !header.dapp && header.difficulty != CalcDifficulty(ToUint64(header.time), parent)
        then Some(InvalidDifficulty)
    else if VerifyGas(header, parent).Some? then VerifyGas(header, parent)
    else if header.number - parent.number != 1 then Some(InvalidNumber)
    else if seal && (!sealed || header.difficulty <= 0) then Some(InvalidSeal)
    else None
  }

  /** A header passes exactly when it is the next after its parent, no older and not from the future, of the right
      difficulty, within the gas band, short enough and, if that is checked, sealed and adding difficulty. */
  lemma VerifiedHeader(header: Header, parent: Header, uncle: bool, seal: bool, latest: int, sealed: bool)
    requires 0 <= parent.gasLimit < TWO_63 && 0 <= header.gasUsed && 0 <= header.gasLimit
    ensures VerifyHeader(header, parent, uncle, seal, latest, sealed).None? <==>
            && header.number == parent.number + 1 && header.extra <= 32
            && parent.time <= header.time <= (if uncle then Pow2(256) - 1 else latest)
            && (header.dapp || header.difficulty == CalcDifficulty(ToUint64(header.time), parent))
            && header.gasUsed <= header.gasLimit && 5000 <= header.gasLimit < TWO_63
            && -(parent.gasLimit / 1024) < header.gasLimit - parent.gasLimit < parent.gasLimit / 1024
            && (seal ==> sealed && header.difficulty > 0)
  {
    GasBand(header, parent);
    LargestTime();
    hide CalcDifficulty, Pow2;
  }

  lemma LargestTime()
    ensures Pow2(256) - 1 == MAX_BIG_256
  {
    assert Pow2(1) == 2 * Pow2(0);
    hide Pow2;
    Squared(1, 2);
    Squared(2, 4);
    Squared(4, 16);
    Squared(8, 256);
    Squared(16, 0x1_0000);
    Squared(32, 0x1_0000_0000);
    Squared(64, 0x1_0000_0000_0000_0000);
    Squared(128, 0x1_0000_0000_0000_0000_0000_0000_0000_0000);
  }

  lemma Squared(n: nat, p: int)
    requires Pow2(n) == p
    ensures Pow2(n + n) == p * p
  {
    Pow2Sum(n, n);
  }

  lemma {:induction false} Pow2Sum(a: nat, b: nat)
    ensures Pow2(a + b) == Pow2(a) * Pow2(b)
  {
    if a > 0 {
      Pow2Sum(a - 1, b);
      assert Pow2(a + b) == 2 * Pow2(a - 1 + b) && Pow2(a) == 2 * Pow2(a - 1);
      hide Pow2;
      assert 2 * Pow2(a - 1) * Pow2(b) == 2 * (Pow2(a - 1) * Pow2(b));
    }
  }

  /** A header that passes adds difficulty to its chain. */
  lemma VerifiedAddsDifficulty(header: Header, parent: Header, uncle: bool, seal: bool, latest: int, sealed: bool)
    requires VerifyHeader(header, parent, uncle, seal, latest, sealed).None?
    requires seal || (!header.dapp && parent.difficulty >= 0)
    ensures header.difficulty > 0
  {
    if !header.dapp && parent.difficulty >= 0 {
      DifficultyBounds(ToUint64(header.time), parent);
    }
    hide CalcDifficulty, VerifyGas;
  }

  /** Between limits below 2^63 the 64-bit comparison is the comparison of distances. */
  lemma GasBand(header: Header, parent: Header)
    requires 0 <= parent.gasLimit < TWO_63 && 0 <= header.gasLimit
    ensures VerifyGas(header, parent).None? <==>
            && header.gasUsed <= header.gasLimit && MIN_GAS_LIMIT <= header.gasLimit < TWO_63
            && parent.gasLimit - parent.gasLimit / BOUND_DIVISOR < header.gasLimit
            && header.gasLimit < parent.gasLimit + parent.gasLimit / BOUND_DIVISOR
  {
  }

  // ---------- choosing the gas limit ----------

  /** The limit that follows from how full the parent was, before the target is looked at. */
  function Drifted(gasLimit: int, gasUsed: int): int {
    var contrib := ToUint64(gasUsed + gasUsed / 2) / BOUND_DIVISOR;
    var decay := ToUint64(gasLimit / BOUND_DIVISOR - 1);
    var limit := ToUint64(ToUint64(gasLimit - decay) + contrib);
    if limit < MIN_GAS_LIMIT then MIN_GAS_LIMIT else limit
  }

  /** The gas limit of the next block, in 64-bit arithmetic. */
  function CalcGasLimit(gasLimit: int, gasUsed: int, target: int): int {
    var limit := Drifted(gasLimit, gasUsed);
    if limit < target then
      var raised := ToUint64(gasLimit + ToUint64(gasLimit / BOUND_DIVISOR - 1));
      if raised > target then target else raised
    else limit
  }

  /** In the band the choice is free of wrap-around: it drifts with the use of the parent, not below the minimum, and
      a drift below the target becomes a raise by less than 1/1024 that stops at the target. */
  lemma ChosenLimitExact(gasLimit: int, gasUsed: int, target: int)
    requires InBand(gasLimit) && 0 <= gasUsed <= gasLimit && 0 <= target < TWO_64
    ensures var limit := CalcGasLimit(gasLimit, gasUsed, target);
            var drift := gasLimit - gasLimit / 1024 + 1 + (3 * gasUsed / 2) / 1024;
            var low := if drift < 5000 then 5000 else drift;
            && (low >= target ==> limit == low)
            && (low < target ==> limit <= target && (limit == target || limit == gasLimit + gasLimit / 1024 - 1))
            && (low < target && target > gasLimit + gasLimit / 1024 - 1 ==> limit == gasLimit + gasLimit / 1024 - 1)
  {
    DriftExact(gasLimit, gasUsed);
    assert gasUsed + gasUsed / 2 == 3 * gasUsed / 2;
  }

  ghost predicate InBand(gasLimit: int) { MIN_GAS_LIMIT <= gasLimit < 0x4000_0000_0000_0000 }

  /** Nothing wraps on limits in the band. */
  lemma DriftExact(gasLimit: int, gasUsed: int)
    requires InBand(gasLimit) && 0 <= gasUsed <= gasLimit
    ensures var limit := gasLimit - (gasLimit / BOUND_DIVISOR - 1) + (gasUsed + gasUsed / 2) / BOUND_DIVISOR;
            Drifted(gasLimit, gasUsed) == if limit < MIN_GAS_LIMIT then MIN_GAS_LIMIT else limit
  {
  }

  /** Whatever the target, the chosen limit passes the check unless a nearly full parent of less than 5120 gas drifts
      by the whole bound and the target does not ask for more. */
  lemma ChosenLimitAccepted(header: Header, parent: Header, target: int)
    requires InBand(parent.gasLimit) && 0 <= parent.gasUsed <= parent.gasLimit && 0 <= target < TWO_64
    requires header.gasLimit == CalcGasLimit(parent.gasLimit, parent.gasUsed, target)
    requires header.gasUsed <= header.gasLimit
    ensures VerifyGas(header, parent).None? <==>
            !(parent.gasLimit < 5 * BOUND_DIVISOR && parent.gasUsed >= 4779 && target <= parent.gasLimit + 4)
  {
    GasBand(header, parent);
    DriftExact(parent.gasLimit, parent.gasUsed);
    DriftTooFar(parent.gasLimit, parent.gasUsed);
  }

  /** The drift reaches the bound exactly for nearly full parents of less than 5120 gas. */
  lemma DriftTooFar(gasLimit: int, gasUsed: int)
    requires InBand(gasLimit) && 0 <= gasUsed <= gasLimit
    ensures Drifted(gasLimit, gasUsed) - gasLimit >= gasLimit / BOUND_DIVISOR <==>
            gasLimit < 5 * BOUND_DIVISOR && gasUsed >= 4779
    ensures gasLimit < 5 * BOUND_DIVISOR && gasUsed >= 4779 ==> Drifted(gasLimit, gasUsed) == gasLimit + 4
  {
    DriftExact(gasLimit, gasUsed);
    if gasLimit >= 7 * BOUND_DIVISOR { DriftBounded(gasLimit, gasUsed); }
  }

  /** A parent of more than 7168 gas never drifts too far. */
  lemma DriftBounded(gasLimit: int, gasUsed: int)
    requires InBand(gasLimit) && 0 <= gasUsed <= gasLimit && gasLimit >= 7 * BOUND_DIVISOR
    ensures Drifted(gasLimit, gasUsed) - gasLimit < gasLimit / BOUND_DIVISOR
  {
    DriftExact(gasLimit, gasUsed);
  }

  /** With the default target every chosen limit passes. */
  lemma DefaultTargetAccepted(header: Header, parent: Header)
    requires InBand(parent.gasLimit) && 0 <= parent.gasUsed <= parent.gasLimit && header.gasUsed <= header.gasLimit
    requires header.gasLimit == CalcGasLimit(parent.gasLimit, parent.gasUsed, TARGET_GAS_LIMIT)
    ensures VerifyGas(header, parent).None? && header.gasLimit >= MIN_GAS_LIMIT
  {
    ChosenLimitAccepted(header, parent, TARGET_GAS_LIMIT);
    GasBand(header, parent);
  }

  /** With a target this low the drift from a full block of 5000 gas is refused. */
  lemma LowTargetRefused(header: Header, parent: Header)
    requires parent.gasLimit == 5000 && parent.gasUsed == 5000 && header.gasUsed == 0
    requires header.gasLimit == CalcGasLimit(5000, 5000, 5000)
    ensures VerifyGas(header, parent) == Some(InvalidGasLimit)
  {
    DriftExact(5000, 5000);
    GasBand(header, parent);
  }

  /** The limits of a chain built locally, each from the gas its parent used. */
  ghost predicate LocallyBuilt(chain: seq<Header>) {
    && (forall i :: 0 <= i < |chain| ==> 0 <= chain[i].gasUsed <= chain[i].gasLimit)
    && (forall i :: 0 < i < |chain| ==>
        chain[i].gasLimit == CalcGasLimit(chain[i - 1].gasLimit, chain[i - 1].gasUsed, TARGET_GAS_LIMIT))
  }

  /** A chain built locally from a limit in the band grows by less than 1/1024 a block and every header
      of it passes, as long as its limits stay below 2^62. */
  lemma {:induction false} LocalChainAccepted(chain: seq<Header>, n: nat)
    requires LocallyBuilt(chain) && n < |chain| && InBand(chain[0].gasLimit)
    requires forall i :: 0 <= i < n ==> chain[i].gasLimit < 0x4000_0000_0000_0000
    ensures chain[n].gasLimit >= MIN_GAS_LIMIT
    ensures forall i :: 0 < i <= n ==> VerifyGas(chain[i], chain[i - 1]).None?
  {
    if n > 0 {
      LocalChainAccepted(chain, n - 1);
      DefaultTargetAccepted(chain[n], chain[n - 1]);
    }
  }
}
