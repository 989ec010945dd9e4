/** Account balances as the state database holds them: an account that was never touched has nothing. */
module StateDb {
  import opened Types
  import Sums

  type Balances = map<Address, int>

  function BalanceOf(balances: Balances, who: Address): int {
    if who in balances then balances[who] else 0
  }

  /** The sum of all balances. */
  ghost function Supply(balances: Balances): int { Sums.Total(balances) }

  ghost predicate Solvent(balances: Balances) {
    forall a :: a in balances ==> balances[a] >= 0
  }

  function Credited(balances: Balances, who: Address, amount: int): Balances {
    balances[who := BalanceOf(balances, who) + amount]
  }

  /** A credit changes one account and the supply by the amount. */
  lemma CreditedSupply(balances: Balances, who: Address, amount: int)
    ensures Supply(Credited(balances, who, amount)) == Supply(balances) + amount
    ensures BalanceOf(Credited(balances, who, amount), who) == BalanceOf(balances, who) + amount
    ensures forall a :: a != who ==> BalanceOf(Credited(balances, who, amount), a) == BalanceOf(balances, a)
  {
    if who in balances {
      Sums.TotalUpdate(balances, who, balances[who] + amount);
    } else {
      Sums.TotalInsert(balances, who, amount);
    }
  }

  class State {
    var balances: Balances
    var nonces: map<Address, nat>
    var refund: nat

    constructor ()
      ensures balances == map[] && nonces == map[] && refund == 0
    {
      balances, nonces, refund := map[], map[], 0;
    }

    method AddBalance(who: Address, amount: int)
      modifies this`balances
      ensures Supply(balances) == old(Supply(balances)) + amount
      ensures forall a :: BalanceOf(balances, a) == old(BalanceOf(balances, a)) + if a == who then amount else 0
      ensures old(Solvent(balances)) && old(BalanceOf(balances, who)) + amount >= 0 ==> Solvent(balances)
      ensures balances == old(Credited(balances, who, amount))
    {
      CreditedSupply(balances, who, amount);
      balances := Credited(balances, who, amount);
    }

    method SubBalance(who: Address, amount: int)
      modifies this`balances
      ensures Supply(balances) == old(Supply(balances)) - amount
      ensures forall a :: BalanceOf(balances, a) == old(BalanceOf(balances, a)) - if a == who then amount else 0
      ensures old(Solvent(balances)) && old(BalanceOf(balances, who)) >= amount ==> Solvent(balances)
      ensures balances == old(Credited(balances, who, -amount))
    {
      CreditedSupply(balances, who, -amount);
      balances := Credited(balances, who, -amount);
    }
  }
}
