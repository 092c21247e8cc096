/** The chain's bank: balances per account for one denom, and per denom for the whole ledger. */
module Bank {
  import opened Results

  /** A canonical address, read as a number; the zeroed address is 0. */
  type Addr = nat
  type Denom = string

  const ZERO_ADDR: Addr := 0

  datatype Coin = Coin(denom: Denom, amount: nat)

  // ---- One denom ----

  type Accounts = map<Addr, nat>

  function Balance(m: Accounts, a: Addr): nat {
    if a in m then m[a] else 0
  }

  function Credit(m: Accounts, a: Addr, amount: nat): Accounts {
    m[a := Balance(m, a) + amount]
  }

  function Debit(m: Accounts, a: Addr, amount: nat): Accounts
    requires amount <= Balance(m, a)
  {
    m[a := Balance(m, a) - amount]
  }

  function Transfer(m: Accounts, from: Addr, to: Addr, amount: nat): Accounts
    requires amount <= Balance(m, from)
  {
    Credit(Debit(m, from, amount), to, amount)
  }

  ghost function SumOver(m: Accounts, s: set<Addr>): nat
    requires s <= m.Keys
  {
    if s == {} then 0 else
      var a :| a in s;
      m[a] + SumOver(m, s - {a})
  }

  /** Everything that is held of the denom. */
  ghost function Total(m: Accounts): nat {
    SumOver(m, m.Keys)
  }

  lemma {:induction false} SumRemove(m: Accounts, s: set<Addr>, x: Addr)
    requires s <= m.Keys && x in s
    ensures SumOver(m, s) == m[x] + SumOver(m, s - {x})
  {
    var a :| a in s && SumOver(m, s) == m[a] + SumOver(m, s - {a});
    if a != x {
      SumRemove(m, s - {a}, x);
      SumRemove(m, s - {x}, a);
      assert s - {a} - {x} == s - {x} - {a};
    }
  }

  lemma {:induction false} SumSame(m: Accounts, n: Accounts, s: set<Addr>)
    requires s <= m.Keys && s <= n.Keys
    requires forall a :: a in s ==> m[a] == n[a]
    ensures SumOver(m, s) == SumOver(n, s)
  {
    if s != {} {
      var a :| a in s;
      SumRemove(m, s, a);
      SumRemove(n, s, a);
      SumSame(m, n, s - {a});
    }
  }

  lemma TotalUpdate(m: Accounts, a: Addr, v: nat)
    ensures Total(m[a := v]) == Total(m) - Balance(m, a) + v
    ensures Balance(m, a) <= Total(m)
  {
    var n := m[a := v];
    var others := m.Keys - {a};
    SumRemove(n, n.Keys, a);
    assert n.Keys - {a} == others;
    SumSame(m, n, others);
    if a in m {
      SumRemove(m, m.Keys, a);
    } else {
      assert others == m.Keys;
    }
  }

  /** A transfer moves exactly the amount and conserves the total. */
  lemma TransferConserves(m: Accounts, from: Addr, to: Addr, amount: nat)
    requires amount <= Balance(m, from)
    ensures Total(Transfer(m, from, to, amount)) == Total(m)
  {
    TotalUpdate(m, from, Balance(m, from) - amount);
    var d := Debit(m, from, amount);
    TotalUpdate(d, to, Balance(d, to) + amount);
  }

  // ---- All denoms ----

  type Ledger = map<Denom, Accounts>

  function Of(l: Ledger, d: Denom): Accounts {
    if d in l then l[d] else map[]
  }

  function Holding(l: Ledger, a: Addr, d: Denom): nat {
    Balance(Of(l, d), a)
  }

  /** Moves a coin; fails when the sender does not hold it. */
  function Send(l: Ledger, from: Addr, to: Addr, coin: Coin): Option<Ledger> {
    if Holding(l, from, coin.denom) < coin.amount then None
    else Some(l[coin.denom := Transfer(Of(l, coin.denom), from, to, coin.amount)])
  }

  lemma SendConserves(l: Ledger, from: Addr, to: Addr, coin: Coin, d: Denom)
    requires Send(l, from, to, coin).Some?
    ensures Total(Of(Send(l, from, to, coin).value, d)) == Total(Of(l, d))
  {
    TransferConserves(Of(l, coin.denom), from, to, coin.amount);
  }
}
