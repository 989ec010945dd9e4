/** Gas and balances: buying, using and refunding gas for one message, and the running totals of a
    block. */
module Gas {
  import opened Types
  import opened HeaderRules
  import opened StateDb
  import Uncles

  const MAX_UINT64 := TWO_64 - 1
  const TX_GAS := 21000
  const TX_GAS_CREATION := 53000
  const NON_ZERO_GAS := 68
  const ZERO_GAS := 4

  newtype byte = b: int | 0 <= b < 256

  // ---------- the gas pool ----------

  class GasPool {
    var gas: nat

    constructor ()
      ensures gas == 0
    {
      gas := 0;
    }

    /** Running over the 64 bits stops the program. */
    method AddGas(amount: nat)
      requires gas + amount <= MAX_UINT64
      modifies this
      ensures gas == old(gas) + amount
    {
      gas := gas + amount;
    }

    method SubGas(amount: nat) returns (ok: bool)
      modifies this
      ensures ok <==> amount <= old(gas)
      ensures gas == if ok then old(gas) - amount else old(gas)
    {
      if gas < amount { return false; }
      gas := gas - amount;
      return true;
    }
  }

  // ---------- intrinsic gas ----------

  /** What a message costs before it runs: a fixed price, and 68 for every non-zero and 4 for every zero byte. */
  ghost function Intrinsic(data: seq<byte>, creation: bool): nat {
    var zeros := multiset(data)[0];
    FewerZeros(data);
    (if creation then 53000 else 21000) + 68 * (|data| - zeros) + 4 * zeros
  }

  lemma {:induction false} FewerZeros(data: seq<byte>)
    ensures multiset(data)[0] <= |data|
  {
    if data != [] {
      var front, last := data[..|data| - 1], data[|data| - 1];
      FewerZeros(front);
      assert data == front + [last];
    }
  }

  method CountNonZero(data: seq<byte>) returns (nz: nat)
    ensures nz == |data| - multiset(data)[0]
  {
    nz := 0;
    for i := 0 to |data|
      invariant nz == i - multiset(data[..i])[0]
    {
      assert data[..i + 1] == data[..i] + [data[i]];
      if data[i] != 0 { nz := nz + 1; }
    }
    assert data[..|data|] == data;
  }

  /** The gas a message costs before it runs; refused exactly when it exceeds 64 bits. */
  method IntrinsicGas(data: seq<byte>, creation: bool) returns (r: Option<nat>)
    ensures r == if Intrinsic(data, creation) < 0x1_0000_0000_0000_0000 then Some(Intrinsic(data, creation)) else None
  {
    var gas := if creation then TX_GAS_CREATION else TX_GAS;
    if |data| > 0 {
      var nz := CountNonZero(data);
      if (MAX_UINT64 - gas) / NON_ZERO_GAS < nz { return None; }
      gas := gas + nz * NON_ZERO_GAS;
      var z := |data| - nz;
      if (MAX_UINT64 - gas) / ZERO_GAS < z { return None; }
      gas := gas + z * ZERO_GAS;
    }
    return Some(gas);
  }

  // ---------- messages and the virtual machine ----------

  datatype Message = Message(from: Address, to: Option<Address>, nonce: nat, gasPrice: nat, gas: nat, value: nat,
      data: seq<byte>, checkNonce: bool)

  datatype World = World(balances: Balances, nonces: map<Address, nat>, refund: nat)

  datatype VmError = Fine | InsufficientBalance | Failed

  datatype Outcome = Outcome(world: World, gasLeft: nat, error: VmError)

  /** A call or a creation, by a message with some gas left. */
  type Evm = (World, Message, nat) -> Outcome

  function NonceOf(nonces: map<Address, nat>, who: Address): nat {
    if who in nonces then nonces[who] else 0
  }

  /** Running a message neither makes nor destroys balance, overdraws no account, returns no more gas
      than it was given, and takes back the nonce of no account among the senders; a creation that was
      paid for uses up a nonce of its sender. */
  ghost predicate Honest(evm: Evm, senders: set<Address>) {
    Frugal(evm) && forall w: World, m: Message, g: nat :: Honestly(w, m, evm(w, m, g), senders)
  }

  ghost predicate Frugal(evm: Evm) {
    forall w: World, m: Message, g: nat :: evm(w, m, g).gasLeft <= g
  }

  ghost predicate Honestly(w: World, m: Message, r: Outcome, senders: set<Address>) {
    && Supply(r.world.balances) == Supply(w.balances)
    && (Solvent(w.balances) ==> Solvent(r.world.balances))
    && (forall a :: a in senders ==> NonceOf(w.nonces, a) <= NonceOf(r.world.nonces, a))
    && (m.to.None? && m.from in senders && r.error != InsufficientBalance ==>
        NonceOf(w.nonces, m.from) < NonceOf(r.world.nonces, m.from))
  }

  datatype Failure = NonceTooHigh | NonceTooLow | CannotPayGas | GasLimitReached | OutOfGas | CannotTransfer

  datatype Result = Applied(usedGas: nat, failed: bool) | Refused(why: Failure)

  /** Nonces of senders only grow. */
  ghost predicate Advanced(before: map<Address, nat>, after: map<Address, nat>, senders: set<Address>) {
    forall a :: a in senders ==> NonceOf(before, a) <= NonceOf(after, a)
  }

  // ---------- what a message does ----------

  ghost function WorldOf(state: State): World
    reads state
  {
    World(state.balances, state.nonces, state.refund)
  }

  /** The world in which the virtual machine starts: the gas is paid for and a plain call has used up a nonce. */
  ghost function Entered(w: World, m: Message): World {
    World(Credited(w.balances, m.from, -(m.gas * m.gasPrice)),
          if m.to.Some? then w.nonces[m.from := NonceOf(w.nonces, m.from) + 1] else w.nonces, w.refund)
  }

  /** The outcome of running a message that can pay its intrinsic gas. */
  ghost function Ran(evm: Evm, w: World, m: Message): Outcome
    requires Intrinsic(m.data, m.to.None?) <= m.gas
  {
    evm(Entered(w, m), m, m.gas - Intrinsic(m.data, m.to.None?))
  }

  lemma StartsFrom(evm: Evm, w: World, m: Message)
    requires Intrinsic(m.data, m.to.None?) <= m.gas
    ensures Ran(evm, w, m) == evm(World(Credited(w.balances, m.from, -(m.gas * m.gasPrice)), NonceUsed(w.nonces, m),
                                        w.refund), m, m.gas - Intrinsic(m.data, m.to.None?))
  {
  }

  /** The first reason, in the order they are looked for, why a message cannot be applied. */
  ghost function Obstacle(evm: Evm, w: World, pool: nat, m: Message): Option<Failure> {
    if m.checkNonce && NonceOf(w.nonces, m.from) < m.nonce then Some(NonceTooHigh)
    else if m.checkNonce && NonceOf(w.nonces, m.from) > m.nonce then Some(NonceTooLow)
    else if BalanceOf(w.balances, m.from) < m.gas * m.gasPrice then Some(CannotPayGas)
    else if pool < m.gas then Some(GasLimitReached)
    else if m.gas < Intrinsic(m.data, m.to.None?) then Some(OutOfGas)
    else if Ran(evm, w, m).error == InsufficientBalance then Some(CannotTransfer)
    else None
  }

  /** The gas a message is billed: what it used up, less the refund or half of that if the refund is more. */
  ghost function Billed(o: Outcome, m: Message): nat
    requires o.gasLeft <= m.gas
  {
    var used := m.gas - o.gasLeft;
    used - if used / 2 < o.world.refund then used / 2 else o.world.refund
  }

  /** The world once an outcome is settled: the sender has the change and the miner the fee. */
  ghost function Paid(o: Outcome, m: Message, coinbase: Address): World
    requires o.gasLeft <= m.gas
  {
    var used := Billed(o, m);
    o.world.(balances := Credited(Credited(o.world.balances, m.from, (m.gas - used) * m.gasPrice), coinbase,
                                  used * m.gasPrice))
  }

  /** The bill is what was used up less the refund, or half of it if the refund is more, and every account has what
      the machine left it, but that the sender has the change and the miner the fee. */
  ghost predicate BalancesAfter(balances: Balances, usedGas: nat, o: Outcome, m: Message, coinbase: Address) {
    && (var u := m.gas - o.gasLeft; usedGas == u - if u / 2 < o.world.refund then u / 2 else o.world.refund)
    && forall a :: BalanceOf(balances, a) == BalanceOf(o.world.balances, a)
                   + (if a == m.from then (m.gas - usedGas) * m.gasPrice else 0)
                   + if a == coinbase then usedGas * m.gasPrice else 0
  }

  lemma PaidBalances(o: Outcome, m: Message, coinbase: Address)
    requires o.gasLeft <= m.gas
    ensures BalancesAfter(Paid(o, m, coinbase).balances, Billed(o, m), o, m, coinbase)
  {
  }

  // ---------- one message ----------

  class StateTransition {
    const gp: GasPool
    const state: State
    const evm: Evm
    const coinbase: Address
    const msg: Message
    var gas: nat
    var initialGas: nat

    constructor (evm: Evm, msg: Message, gp: GasPool, state: State, coinbase: Address)
      ensures this.evm == evm && this.msg == msg && this.gp == gp && this.state == state && this.coinbase == coinbase
      ensures gas == 0 && initialGas == 0
    {
      this.evm, this.msg, this.gp, this.state, this.coinbase := evm, msg, gp, state, coinbase;
      gas, initialGas := 0, 0;
    }

    method UseGas(amount: nat) returns (ok: bool)
      modifies this`gas
      ensures ok <==> amount <= old(gas)
      ensures gas == if ok then old(gas) - amount else old(gas)
    {
      if gas < amount { return false; }
      gas := gas - amount;
      return true;
    }

    /** Takes the gas out of the pool and its price from the sender, or changes nothing. */
    method BuyGas() returns (r: Option<Failure>)
      requires gas == 0
      modifies this, gp, state`balances
      ensures r == if old(BalanceOf(state.balances, msg.from)) < msg.gas * msg.gasPrice then Some(CannotPayGas)
                   else if old(gp.gas) < msg.gas then Some(GasLimitReached) else None
      ensures r.Some? ==> gp.gas == old(gp.gas) && state.balances == old(state.balances)
      ensures r.None? ==> gas == msg.gas && initialGas == msg.gas && gp.gas == old(gp.gas) - msg.gas
      ensures r.None? ==> Supply(state.balances) == old(Supply(state.balances)) - msg.gas * msg.gasPrice
      ensures r.None? ==> state.balances == Credited(old(state.balances), msg.from, -(msg.gas * msg.gasPrice))
      ensures old(Solvent(state.balances)) ==> Solvent(state.balances)
    {
      var mgval := msg.gas * msg.gasPrice;
      if BalanceOf(state.balances, msg.from) < mgval { return Some(CannotPayGas); }
      var ok := gp.SubGas(msg.gas);
      if !ok { return Some(GasLimitReached); }
      gas := gas + msg.gas;
      initialGas := msg.gas;
      state.SubBalance(msg.from, mgval);
      return None;
    }

    method PreCheck() returns (r: Option<Failure>)
      requires gas == 0
      modifies this, gp, state`balances
      ensures r.Some? ==> gp.gas == old(gp.gas) && state.balances == old(state.balances)
      ensures r.None? ==> gas == msg.gas && initialGas == msg.gas && gp.gas == old(gp.gas) - msg.gas
      ensures r.None? ==> Supply(state.balances) == old(Supply(state.balances)) - msg.gas * msg.gasPrice
      ensures r.None? ==> state.balances == Credited(old(state.balances), msg.from, -(msg.gas * msg.gasPrice))
      ensures old(Solvent(state.balances)) ==> Solvent(state.balances)
      ensures r == if msg.checkNonce && NonceOf(state.nonces, msg.from) < msg.nonce then Some(NonceTooHigh)
                   else if msg.checkNonce && NonceOf(state.nonces, msg.from) > msg.nonce then Some(NonceTooLow)
                   else if old(BalanceOf(state.balances, msg.from)) < msg.gas * msg.gasPrice then Some(CannotPayGas)
                   else if old(gp.gas) < msg.gas then Some(GasLimitReached) else None
    {
      if msg.checkNonce {
        var nonce := NonceOf(state.nonces, msg.from);
        if nonce < msg.nonce { return Some(NonceTooHigh); }
        if nonce > msg.nonce { return Some(NonceTooLow); }
      }
      r := BuyGas();
    }

    /** Gives back up to half of the used gas for freed storage, and the rest to sender and pool. */
    method RefundGas()
      requires gas <= initialGas && gp.gas + initialGas <= MAX_UINT64
      modifies this`gas, gp, state`balances
      ensures var half := (initialGas - old(gas)) / 2;
              gas == old(gas) + if half < state.refund then half else state.refund
      ensures gas <= initialGas && gp.gas == old(gp.gas) + gas
      ensures state.balances == Credited(old(state.balances), msg.from, gas * msg.gasPrice)
      ensures Supply(state.balances) == old(Supply(state.balances)) + gas * msg.gasPrice
      ensures forall a :: BalanceOf(state.balances, a) ==
                old(BalanceOf(state.balances, a)) + if a == msg.from then gas * msg.gasPrice else 0
      ensures old(Solvent(state.balances)) ==> Solvent(state.balances)
    {
      var refund := (initialGas - gas) / 2;
      if refund > state.refund { refund := state.refund; }
      gas := gas + refund;
      state.AddBalance(msg.from, gas * msg.gasPrice);
      gp.AddGas(gas);
    }

    /** Runs the virtual machine on what is left of the gas; a plain call uses up a nonce first. */
    method Execute(ghost senders: set<Address>) returns (error: VmError)
      requires Honest(evm, senders)
      modifies this`gas, state
      ensures Outcome(WorldOf(state), gas, error) ==
              evm(World(old(state.balances), NonceUsed(old(state.nonces), msg), old(state.refund)), msg, old(gas))
      ensures gas <= old(gas) && Supply(state.balances) == old(Supply(state.balances))
      ensures old(Solvent(state.balances)) ==> Solvent(state.balances)
      ensures Advanced(old(state.nonces), state.nonces, senders)
      ensures msg.from in senders && error != InsufficientBalance ==>
                NonceOf(state.nonces, msg.from) > old(NonceOf(state.nonces, msg.from))
    {
      ghost var w := World(state.balances, NonceUsed(state.nonces, msg), state.refund);
      assert Honestly(w, msg, evm(w, msg, gas), senders);
      if msg.to.Some? {
        state.nonces := state.nonces[msg.from := NonceOf(state.nonces, msg.from) + 1];
      }
      var r := evm(World(state.balances, state.nonces, state.refund), msg, gas);
      state.balances, state.nonces, state.refund := r.world.balances, r.world.nonces, r.world.refund;
      gas, error := r.gasLeft, r.error;
    }

    /** Settles the bill: refund, the sender's change, the pool, and the fee of the block's miner. */
    method Settle() returns (usedGas: nat)
      requires gas <= initialGas && gp.gas + initialGas <= MAX_UINT64
      modifies this`gas, gp, state`balances
      ensures usedGas == initialGas - gas && gp.gas == old(gp.gas) + initialGas - usedGas
      ensures var u := initialGas - old(gas);
              usedGas == u - if u / 2 < state.refund then u / 2 else state.refund
      ensures state.balances == Credited(Credited(old(state.balances), msg.from, (initialGas - usedGas) * msg.gasPrice),
                                         coinbase, usedGas * msg.gasPrice)
      ensures Supply(state.balances) == old(Supply(state.balances)) + initialGas * msg.gasPrice
      ensures forall a :: BalanceOf(state.balances, a) == old(BalanceOf(state.balances, a))
                          + (if a == msg.from then (initialGas - usedGas) * msg.gasPrice else 0)
                          + if a == coinbase then usedGas * msg.gasPrice else 0
      ensures old(Solvent(state.balances)) ==> Solvent(state.balances)
    {
      hide Supply, Solvent, Credited;
      RefundGas();
      usedGas := initialGas - gas;
      Distribute(gas, usedGas, msg.gasPrice);
      state.AddBalance(coinbase, usedGas * msg.gasPrice);
    }

    /** Applies the message, or refuses it for the first obstacle there is.  When it is applied the bill is what was
        used up less the refund, the sender pays it to the miner, the pool has lost just the gas used, the balances
        are conserved in total, and a checked nonce was the sender's and is used up. */
    method TransitionDb(ghost senders: set<Address>) returns (r: Result)
      requires gas == 0 && gp.gas <= MAX_UINT64 && Honest(evm, senders)
      modifies this, gp, state
      ensures var stop := Obstacle(evm, old(WorldOf(state)), old(gp.gas), msg);
              if stop.Some? then r == Refused(stop.value) else r.Applied?
      ensures r.Applied? ==> Intrinsic(msg.data, msg.to.None?) <= msg.gas
      ensures r.Applied? ==>
                var o := Ran(evm, old(WorldOf(state)), msg);
                && o.gasLeft <= msg.gas && WorldOf(state) == Paid(o, msg, coinbase)
                && r == Applied(Billed(o, msg), o.error != Fine)
                && BalancesAfter(state.balances, r.usedGas, o, msg, coinbase)
      ensures r.Refused? && r.why != OutOfGas && r.why != CannotTransfer ==>
                WorldOf(state) == old(WorldOf(state)) && gp.gas == old(gp.gas)
      ensures r == Refused(OutOfGas) || r == Refused(CannotTransfer) ==> gp.gas == old(gp.gas) - msg.gas
      ensures r == Refused(OutOfGas) ==>
                state.nonces == old(state.nonces)
                && state.balances == Credited(old(state.balances), msg.from, -(msg.gas * msg.gasPrice))
      ensures r.Applied? ==> gp.gas == old(gp.gas) - r.usedGas && r.usedGas <= msg.gas <= old(gp.gas)
      ensures r.Applied? ==> Supply(state.balances) == old(Supply(state.balances))
      ensures r.Applied? ==> 2 * r.usedGas >= Intrinsic(msg.data, msg.to.None?)
      ensures r.Applied? && msg.checkNonce ==> msg.nonce == old(NonceOf(state.nonces, msg.from))
      ensures r.Applied? && msg.from in senders ==>
                NonceOf(state.nonces, msg.from) > old(NonceOf(state.nonces, msg.from))
      ensures Advanced(old(state.nonces), state.nonces, senders) && gp.gas <= old(gp.gas)
      ensures old(Solvent(state.balances)) ==> Solvent(state.balances)
    {
      hide Honest, Intrinsic, Supply, Solvent, Credited, BalanceOf, NonceOf, NonceUsed, Ran, Entered, BalancesAfter;
      ghost var w := WorldOf(state);
      var failure := PreCheck();
      if failure.Some? { return Refused(failure.value); }
      var intrinsic := IntrinsicGas(msg.data, msg.to.None?);
      if intrinsic.None? { return Refused(OutOfGas); }
      var ok := UseGas(intrinsic.value);
      if !ok { return Refused(OutOfGas); }
      StartsFrom(evm, w, msg);
      var error := Execute(senders);
      ghost var o := Ran(evm, w, msg);
      assert o == Outcome(WorldOf(state), gas, error);
      if error == InsufficientBalance { return Refused(CannotTransfer); }
      var usedGas := Settle();
      PaidBalances(o, msg, coinbase);
      return Applied(usedGas, error != Fine);
    }
  }

  lemma Distribute(a: nat, b: nat, p: nat)
    ensures (a + b) * p == a * p + b * p
  {
  }

  /** A plain call uses up the sender's nonce before it runs. */
  function NonceUsed(nonces: map<Address, nat>, m: Message): map<Address, nat> {
    if m.to.Some? then nonces[m.from := NonceOf(nonces, m.from) + 1] else nonces
  }

  // ---------- a block ----------

  datatype Receipt = Receipt(failed: bool, cumulative: nat, gasUsed: nat)

  /** The sum of the gas used by each transaction. */
  ghost function GasSum(receipts: seq<Receipt>): nat {
    if receipts == [] then 0 else GasSum(receipts[..|receipts| - 1]) + receipts[|receipts| - 1].gasUsed
  }

  lemma GasSumStep(receipts: seq<Receipt>, r: Receipt)
    ensures GasSum(receipts + [r]) == GasSum(receipts) + r.gasUsed
  {
    assert (receipts + [r])[..|receipts|] == receipts;
  }

  /** Each receipt holds the gas used up to and including its transaction. */
  ghost predicate Cumulative(receipts: seq<Receipt>) {
    forall j :: 0 <= j < |receipts| ==> receipts[j].cumulative == GasSum(receipts[..j + 1])
  }

  /** There is a receipt unless there is an obstacle, and then it records the bill and what was used before. */
  ghost predicate Recorded(receipt: Option<Receipt>, after: World, evm: Evm, w: World, pool: nat, m: Message,
      coinbase: Address, used: nat)
  {
    if Obstacle(evm, w, pool, m).Some? then receipt.None?
    else
      var o := Ran(evm, w, m);
      && receipt.Some? && o.gasLeft <= m.gas && after == Paid(o, m, coinbase).(refund := 0)
      && receipt.value == Receipt(o.error != Fine, used + Billed(o, m), Billed(o, m))
  }

  /** Applies one transaction of a block and records it. */
  method ApplyTransaction(evm: Evm, gp: GasPool, state: State, coinbase: Address, msg: Message, used: nat,
      ghost senders: set<Address>)
    returns (receipt: Option<Receipt>, usedGas: nat)
    requires gp.gas <= MAX_UINT64 && Honest(evm, senders)
    modifies gp, state
    ensures Recorded(receipt, WorldOf(state), evm, old(WorldOf(state)), old(gp.gas), msg, coinbase, used)
    ensures receipt.Some? ==> gp.gas + usedGas == old(gp.gas) + used
    ensures receipt.Some? ==> usedGas == used + receipt.value.gasUsed == receipt.value.cumulative
    ensures receipt.Some? ==> Supply(state.balances) == old(Supply(state.balances)) && state.refund == 0
    ensures receipt.Some? && msg.checkNonce ==> msg.nonce == old(NonceOf(state.nonces, msg.from))
    ensures receipt.Some? && msg.from in senders ==>
              NonceOf(state.nonces, msg.from) > old(NonceOf(state.nonces, msg.from))
    ensures receipt.Some? ==> 2 * receipt.value.gasUsed >= Intrinsic(msg.data, msg.to.None?)
    ensures receipt.None? ==> usedGas == used
    ensures Advanced(old(state.nonces), state.nonces, senders) && gp.gas <= old(gp.gas)
    ensures old(Solvent(state.balances)) ==> Solvent(state.balances)
  {
    hide Honest, Intrinsic, Supply, Solvent;
    var st := new StateTransition(evm, msg, gp, state, coinbase);
    var r := st.TransitionDb(senders);
    if r.Refused? { return None, used; }
    state.refund := 0;
    usedGas := used + r.usedGas;
    receipt := Some(Receipt(r.failed, usedGas, r.usedGas));
  }

  /** How far a block has got: the world, what is left of the gas, and the receipts. */
  datatype Progress = Progress(world: World, pool: nat, receipts: seq<Receipt>)

  /** One more message, unless there is an obstacle. */
  ghost function Next(evm: Evm, p: Progress, coinbase: Address, m: Message): Option<Progress>
    requires Frugal(evm)
  {
    if Obstacle(evm, p.world, p.pool, m).Some? then None
    else
      var o := Ran(evm, p.world, m);
      var used := Billed(o, m);
      Some(Progress(Paid(o, m, coinbase).(refund := 0), p.pool - used,
                    p.receipts + [Receipt(o.error != Fine, GasSum(p.receipts) + used, used)]))
  }

  /** The messages of a block in order, up to the first obstacle. */
  ghost function Applying(evm: Evm, w: World, limit: nat, coinbase: Address, msgs: seq<Message>): Option<Progress>
    requires Frugal(evm)
  {
    if msgs == [] then Some(Progress(w, limit, []))
    else
      var before := Applying(evm, w, limit, coinbase, msgs[..|msgs| - 1]);
      if before.None? then None else Next(evm, before.value, coinbase, msgs[|msgs| - 1])
  }

  lemma RecordedNext(evm: Evm, p: Progress, coinbase: Address, m: Message, receipt: Option<Receipt>, w: World)
    requires Frugal(evm) && Recorded(receipt, w, evm, p.world, p.pool, m, coinbase, GasSum(p.receipts))
    ensures receipt.None? <==> Next(evm, p, coinbase, m).None?
    ensures receipt.Some? ==>
              receipt.value.gasUsed <= p.pool
              && Next(evm, p, coinbase, m) ==
                 Some(Progress(w, p.pool - receipt.value.gasUsed, p.receipts + [receipt.value]))
  {
    hide Intrinsic, Paid, GasSum;
  }

  lemma ApplyingNothing(evm: Evm, w: World, limit: nat, coinbase: Address, senders: set<Address>)
    requires Honest(evm, senders)
    ensures Frugal(evm) && Applying(evm, w, limit, coinbase, []) == Some(Progress(w, limit, []))
  {
  }

  lemma ApplyingNext(evm: Evm, w: World, limit: nat, coinbase: Address, msgs: seq<Message>, i: nat)
    requires Frugal(evm) && i < |msgs|
    ensures var before := Applying(evm, w, limit, coinbase, msgs[..i]);
            Applying(evm, w, limit, coinbase, msgs[..i + 1]) ==
            if before.None? then None else Next(evm, before.value, coinbase, msgs[i])
  {
    hide Next;
    assert msgs[..i + 1][..i] == msgs[..i];
  }

  /** A block that is stopped once is stopped for good. */
  lemma {:induction false} StoppedFor(evm: Evm, w: World, limit: nat, coinbase: Address, msgs: seq<Message>, i: nat)
    requires Frugal(evm) && i <= |msgs| && Applying(evm, w, limit, coinbase, msgs[..i]).None?
    ensures Applying(evm, w, limit, coinbase, msgs).None?
    decreases |msgs| - i
  {
    if i < |msgs| {
      ApplyingNext(evm, w, limit, coinbase, msgs, i);
      StoppedFor(evm, w, limit, coinbase, msgs, i + 1);
    } else {
      assert msgs[..i] == msgs;
    }
  }

  /** A sender's nonce has passed that of every message applied so far. */
  ghost predicate Spent(msgs: seq<Message>, nonces: map<Address, nat>, senders: set<Address>) {
    forall i :: 0 <= i < |msgs| && msgs[i].from in senders ==> msgs[i].nonce < NonceOf(nonces, msgs[i].from)
  }

  /** No sender spends a nonce twice. */
  ghost predicate SpentOnce(msgs: seq<Message>, senders: set<Address>) {
    forall i, j :: 0 <= i < j < |msgs| && msgs[i].from == msgs[j].from && msgs[i].from in senders ==>
        msgs[i].nonce < msgs[j].nonce
  }

  /** The receipts of applied messages: the gas adds up, every message paid at least half of its
      intrinsic gas, and the nonces of senders were spent in order, each once. */
  ghost predicate Tally(msgs: seq<Message>, receipts: seq<Receipt>, first: map<Address, nat>, nonces: map<Address,
      nat>, senders: set<Address>) {
    && |receipts| == |msgs| && Cumulative(receipts) && Spent(msgs, nonces, senders) && SpentOnce(msgs, senders)
    && (forall k :: 0 <= k < |msgs| ==> 2 * receipts[k].gasUsed >= Intrinsic(msgs[k].data, msgs[k].to.None?))
    && (forall k :: 0 <= k < |msgs| && msgs[k].from in senders ==> NonceOf(first, msgs[k].from) <= msgs[k].nonce)
    && Advanced(first, nonces, senders)
  }

  lemma TallyNothing(first: map<Address, nat>, senders: set<Address>)
    ensures Tally([], [], first, first, senders) && GasSum([]) == 0
  {
  }

  lemma TallyStep(msgs: seq<Message>, receipts: seq<Receipt>, first: map<Address, nat>, before: map<Address, nat>,
      after: map<Address, nat>, senders: set<Address>, m: Message, r: Receipt)
    requires Tally(msgs, receipts, first, before, senders) && Advanced(before, after, senders)
    requires m.nonce == NonceOf(before, m.from) && (m.from in senders ==> NonceOf(after, m.from) > m.nonce)
    requires r.cumulative == GasSum(receipts) + r.gasUsed && 2 * r.gasUsed >= Intrinsic(m.data, m.to.None?)
    ensures Tally(msgs + [m], receipts + [r], first, after, senders)
  {
    hide Intrinsic, NonceOf, GasSum, Cumulative;
    CumulativeStep(receipts, r);
    var more := msgs + [m];
    assert forall k :: 0 <= k < |msgs| ==> more[k] == msgs[k];
  }

  lemma CumulativeStep(receipts: seq<Receipt>, r: Receipt)
    requires Cumulative(receipts) && r.cumulative == GasSum(receipts) + r.gasUsed
    ensures Cumulative(receipts + [r])
  {
    hide GasSum;
    var more := receipts + [r];
    GasSumStep(receipts, r);
    assert more[..|receipts| + 1] == more;
    forall j | 0 <= j < |receipts|
      ensures more[j] == receipts[j] && more[..j + 1] == receipts[..j + 1]
    {
    }
  }

  /** Applies the transactions of a block in order.  The pool and the gas used so far always make up
      what the pool held at first. */
  method ApplyAll(evm: Evm, gp: GasPool, state: State, coinbase: Address, msgs: seq<Message>,
      ghost senders: set<Address>)
    returns (receipts: Option<seq<Receipt>>, usedGas: nat)
    requires gp.gas <= MAX_UINT64 && Honest(evm, senders) && forall m :: m in msgs ==> m.checkNonce
    modifies gp, state
    ensures var end := Applying(evm, old(WorldOf(state)), old(gp.gas), coinbase, msgs);
            if receipts.Some? then end == Some(Progress(WorldOf(state), gp.gas, receipts.value)) else end.None?
    ensures receipts.Some? ==> Tally(msgs, receipts.value, old(state.nonces), state.nonces, senders)
    ensures receipts.Some? ==> usedGas == GasSum(receipts.value) && gp.gas + usedGas == old(gp.gas)
    ensures receipts.Some? ==> Supply(state.balances) == old(Supply(state.balances))
    ensures old(Solvent(state.balances)) ==> Solvent(state.balances)
  {
    hide Honest, Frugal, Intrinsic, Supply, Solvent, Tally, NonceOf, Advanced, GasSum, Applying, Next, Recorded;
    ghost var w := WorldOf(state);
    ApplyingNothing(evm, w, gp.gas, coinbase, senders);
    var list: seq<Receipt> := [];
    usedGas := 0;
    TallyNothing(state.nonces, senders);
    assert msgs[..0] == [];
    for i := 0 to |msgs|
      invariant Applying(evm, w, old(gp.gas), coinbase, msgs[..i]) == Some(Progress(WorldOf(state), gp.gas, list))
      invariant Tally(msgs[..i], list, old(state.nonces), state.nonces, senders)
      invariant usedGas == GasSum(list) && gp.gas + usedGas == old(gp.gas)
      invariant Supply(state.balances) == old(Supply(state.balances))
      invariant old(Solvent(state.balances)) ==> Solvent(state.balances)
    {
      ghost var before := state.nonces;
      ghost var p := Progress(WorldOf(state), gp.gas, list);
      ApplyingNext(evm, w, old(gp.gas), coinbase, msgs, i);
      assert msgs[i] in msgs && msgs[..i + 1] == msgs[..i] + [msgs[i]];
      var receipt, used := ApplyTransaction(evm, gp, state, coinbase, msgs[i], usedGas, senders);
      RecordedNext(evm, p, coinbase, msgs[i], receipt, WorldOf(state));
      if receipt.None? {
        StoppedFor(evm, w, old(gp.gas), coinbase, msgs, i + 1);
        return None, 0;
      }
      GasSumStep(list, receipt.value);
      TallyStep(msgs[..i], list, old(state.nonces), before, state.nonces, senders, msgs[i], receipt.value);
      usedGas := used;
      list := list + [receipt.value];
    }
    assert msgs[..|msgs|] == msgs;
    receipts := Some(list);
  }

  /** Executes the transactions of a block and pays its rewards.  The gas used is the sum of what the
      transactions used and never exceeds the block's limit; the balances change in total only by what
      the block mints; and no nonce of a sender is spent twice. */
  method Process(evm: Evm, block: Uncles.Block, msgs: seq<Message>, state: State, ghost senders: set<Address>)
    returns (receipts: Option<seq<Receipt>>, usedGas: nat)
    requires 0 <= block.header.gasLimit <= MAX_UINT64 && Honest(evm, senders) && forall m :: m in msgs ==> m.checkNonce
    modifies state
    ensures var end := Applying(evm, old(WorldOf(state)), block.header.gasLimit, block.header.coinbase, msgs);
            if receipts.None? then end.None?
            else
              && end.Some? && end.value.receipts == receipts.value && state.nonces == end.value.world.nonces
              && forall a :: BalanceOf(state.balances, a) == BalanceOf(end.value.world.balances, a)
                             + Uncles.UncleShare(block.header.number, block.uncles, a)
                             + if a == block.header.coinbase then Uncles.MinerReward(block.uncles) else 0
    ensures receipts.Some? ==> Tally(msgs, receipts.value, old(state.nonces), state.nonces, senders)
    ensures receipts.Some? ==> usedGas == GasSum(receipts.value) <= block.header.gasLimit
    ensures receipts.Some? ==> Supply(state.balances) == old(Supply(state.balances)) + Uncles.Minted(block)
  {
    hide Honest, Intrinsic, Supply, Tally, Applying, BalanceOf, Uncles.UncleShare, Uncles.MinerReward, Uncles.Minted;
    var gp := new GasPool();
    gp.AddGas(block.header.gasLimit);
    receipts, usedGas := ApplyAll(evm, gp, state, block.header.coinbase, msgs, senders);
    if receipts.Some? {
      Uncles.AccumulateRewards(state, block.header, block.uncles);
    } else {
      usedGas := 0;
    }
  }

  // ---------- receipts read back ----------

  /** The gas a receipt shows once it is recomputed from the cumulative values, in 64-bit arithmetic. */
  ghost function Recovered(receipts: seq<Receipt>, j: nat): nat
    requires j < |receipts|
  {
    if j == 0 then receipts[j].cumulative else ToUint64(receipts[j].cumulative - receipts[j - 1].cumulative)
  }

  /** Fills in the gas of every receipt from the cumulative values, or refuses a wrong count. */
  method SetReceiptsData(transactions: nat, receipts: array<Receipt>) returns (ok: bool)
    modifies receipts
    ensures ok <==> transactions == receipts.Length
    ensures !ok ==> receipts[..] == old(receipts[..])
    ensures ok ==> forall j :: 0 <= j < receipts.Length ==>
              receipts[j] == old(receipts[j]).(gasUsed := Recovered(old(receipts[..]), j))
  {
    hide Recovered, ToUint64;
    if transactions != receipts.Length { return false; }
    ghost var was := receipts[..];
    for j := 0 to receipts.Length
      invariant forall k :: 0 <= k < j ==> receipts[k] == was[k].(gasUsed := Recovered(was, k))
      invariant forall k :: j <= k < receipts.Length ==> receipts[k] == was[k]
    {
      RecoveredAt(was, j);
      if j == 0 {
        receipts[j] := receipts[j].(gasUsed := receipts[j].cumulative);
      } else {
        receipts[j] := receipts[j].(gasUsed := ToUint64(receipts[j].cumulative - receipts[j - 1].cumulative));
      }
    }
    return true;
  }

  lemma RecoveredAt(receipts: seq<Receipt>, j: nat)
    requires j < |receipts|
    ensures Recovered(receipts, j) == if j == 0 then receipts[j].cumulative
              else ToUint64(receipts[j].cumulative - receipts[j - 1].cumulative)
  {
  }

  /** Reading back only the cumulative values of the receipts of a block recovers the gas recorded for
      each of its transactions. */
  lemma GasRecovered(recorded: seq<Receipt>, stored: seq<Receipt>, j: nat)
    requires Cumulative(recorded) && |stored| == |recorded| && j < |recorded| && recorded[j].gasUsed <= MAX_UINT64
    requires forall k :: 0 <= k < |recorded| ==> stored[k].cumulative == recorded[k].cumulative
    ensures Recovered(stored, j) == recorded[j].gasUsed
  {
    var front := recorded[..j];
    assert recorded[..j + 1] == front + [recorded[j]];
    GasSumStep(front, recorded[j]);
    hide GasSum, ToUint64;
    assert j > 0 ==> recorded[j - 1].cumulative == GasSum(recorded[..j]);
  }
}
