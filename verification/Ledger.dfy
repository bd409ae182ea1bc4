/** Accounts, transfers and the coins a block creates. */
module Ledger {
  import opened Modular
  import opened Options
  import opened Powers
  import W = MachineWords

  const TWO_63 := 0x8000_0000_0000_0000
  const TWO_64 := 0x1_0000_0000_0000_0000

  type Coins = x: int | -TWO_63 <= x < TWO_63

  /** Signed 64-bit arithmetic wraps around. */
  function Wrap(x: int): (w: Coins)
  {
    W.Wrap(x, TWO_63)
  }

  lemma WrapCong(x: int)
    ensures Cong(Wrap(x), x, TWO_64)
    ensures -TWO_63 <= x < TWO_63 ==> Wrap(x) == x
  {
    W.WrapCong(x, TWO_63);
    if -TWO_63 <= x < TWO_63 {
      W.WrapFits(x, TWO_63);
    }
  }

  // ---------- rewards ----------

  const ONE_BURST := 100_000_000
  const REWARD_RECIPIENT_START_HEIGHT := 6500
  const LAST_REWARDED_HEIGHT := 1944000

  /** Ten thousand coins, five percent fewer each month of 10800 blocks, in whole coins. */
  function BlockReward(height: nat): int
  {
    if height == 0 || height >= LAST_REWARDED_HEIGHT then 0
    else
      PowPositive(100, height / 10800);
      10000 * Pow(95, height / 10800) / Pow(100, height / 10800) * ONE_BURST
  }

  lemma QuotientLe(a: int, b: int, c: int, d: int)
    requires a >= 0 && b > 0 && c >= 0 && d > 0 && a * d <= c * b
    ensures a / b <= c / d
  {
    var q := c / d;
    assert c == q * d + c % d;
    MulLe(c + 1, (q + 1) * d, b);
    assert (c + 1) * b == c * b + b && (q + 1) * d * b == (q + 1) * b * d;
    if (q + 1) * b <= a {
      MulLe((q + 1) * b, a, d);
    }
    assert a == (a / b) * b + a % b;
    if q + 1 <= a / b {
      MulLe(q + 1, a / b, b);
    }
  }

  /** The reward never rises from one month to the next. */
  lemma RewardFalls(month: nat)
    ensures Pow(100, month) > 0 && Pow(100, month + 1) > 0
    ensures 10000 * Pow(95, month + 1) / Pow(100, month + 1) <= 10000 * Pow(95, month) / Pow(100, month)
  {
    PowPositive(95, month);
    PowPositive(100, month);
    var n, m := Pow(95, month), Pow(100, month);
    assert Pow(95, month + 1) == 95 * n && Pow(100, month + 1) == 100 * m;
    NinetyFive(n, m);
    QuotientLe(10000 * (95 * n), 100 * m, 10000 * n, m);
  }

  lemma NinetyFive(n: int, m: int)
    requires n > 0 && m > 0
    ensures 10000 * (95 * n) * m <= 10000 * n * (100 * m)
  {
    assert n * m > 0;
    assert 10000 * (95 * n) * m == 950000 * (n * m);
    assert 10000 * n * (100 * m) == 1000000 * (n * m);
  }

  // ---------- accounts ----------

  type Key = k: seq<int> | |k| == 32 witness seq(32, _ => 0)

  datatype Account = Account(id: nat, balance: Coins, publicKey: Option<Key>, rewardRecipient: nat)

  function NewAccount(id: nat): Account
  {
    Account(id, 0, None, id)
  }

  /** The accounts, and for activated ones the id under each public key. */
  datatype State = State(accounts: map<nat, Account>, index: map<Key, nat>)

  datatype Error = UnknownAccount | BalanceTooLow

  datatype Result = Ok | Err(error: Error)

  ghost function Total(accounts: map<nat, Account>): int
  {
    if accounts == map[] then 0
    else
      var id :| id in accounts;
      accounts[id].balance + Total(accounts - {id})
  }

  ghost function BalanceOf(accounts: map<nat, Account>, id: nat): int
  {
    if id in accounts then accounts[id].balance else 0
  }

  lemma {:induction false} TotalWithout(accounts: map<nat, Account>, id: nat)
    ensures Total(accounts) == BalanceOf(accounts, id) + Total(accounts - {id})
    decreases |accounts|
  {
    if id !in accounts {
      assert accounts - {id} == accounts;
    } else {
      var k :| k in accounts && Total(accounts) == accounts[k].balance + Total(accounts - {k});
      if k != id {
        Smaller(accounts, k);
        Smaller(accounts, id);
        TotalWithout(accounts - {k}, id);
        TotalWithout(accounts - {id}, k);
        assert (accounts - {k}) - {id} == (accounts - {id}) - {k};
      }
    }
  }

  lemma Smaller(accounts: map<nat, Account>, k: nat)
    requires k in accounts
    ensures |accounts - {k}| < |accounts|
  {
    assert (accounts - {k}).Keys == accounts.Keys - {k};
    assert |(accounts - {k}).Keys| == |accounts - {k}| && |accounts.Keys| == |accounts|;
  }

  lemma TotalUpdate(accounts: map<nat, Account>, id: nat, a: Account)
    ensures Total(accounts[id := a]) == Total(accounts) - BalanceOf(accounts, id) + a.balance
  {
    TotalWithout(accounts, id);
    TotalWithout(accounts[id := a], id);
    assert accounts[id := a] - {id} == accounts - {id};
  }

  // ---------- transfers ----------

  /** The account a public key pays from: found by its key, or by the id derived from it and then activated. */
  ghost function Payer(s: State, key: Key, idOf: Key -> nat): Option<Account>
  {
    if key in s.index && s.index[key] in s.accounts then Some(s.accounts[s.index[key]])
    else if idOf(key) in s.accounts then Some(s.accounts[idOf(key)].(publicKey := Some(key)))
    else None
  }

  ghost predicate IsIndexed(s: State, key: Key)
  {
    key in s.index && s.index[key] in s.accounts
  }

  /** The state after a payer has been debited. */
  ghost function Debited(s: State, key: Key, payer: Account, total: int): State
  {
    var a := payer.(balance := Wrap(payer.balance - total));
    State(s.accounts[a.id := a], if IsIndexed(s, key) then s.index else s.index[key := a.id])
  }

  ghost function Credited(s: State, receiver: nat, amount: int): State
  {
    var a := if receiver in s.accounts then s.accounts[receiver] else NewAccount(receiver);
    s.(accounts := s.accounts[a.id := a.(balance := Wrap(a.balance + amount))])
  }

  /** A transfer; without a sender, the amount is created. */
  ghost function Transferred(s: State, sender: Option<Key>, receiver: nat, amount: int, fee: int, idOf: Key -> nat)
    : (State, Result)
  {
    match sender
    case None => (Credited(s, receiver, amount), Ok)
    case Some(key) =>
      match Payer(s, key, idOf)
      case None => (s, Err(UnknownAccount))
      case Some(payer) =>
        var total := Wrap(amount + fee);
        if payer.balance < total then (s, Err(BalanceTooLow))
        else (Credited(Debited(s, key, payer, total), receiver, amount), Ok)
  }

  class Blockchain {
    var accounts: map<nat, Account>
    var index: map<Key, nat>
    const idOf: Key -> nat

    constructor (idOf: Key -> nat)
      ensures this.idOf == idOf && Ledger() == State(map[], map[])
    {
      this.idOf := idOf;
      accounts, index := map[], map[];
    }

    function Ledger(): State
      reads this
    {
      State(accounts, index)
    }

    /** All or nothing: the writes of a failed transfer are discarded. */
    method TransferBurst(senderPublicKey: Option<Key>, receiverId: nat, amount: Coins, fee: Coins) returns (r: Result)
      modifies this
      ensures (Ledger(), r) == Transferred(old(Ledger()), senderPublicKey, receiverId, amount, fee, idOf)
    {
      hide Wrap;
      var totalAmount := Wrap(amount as int + fee as int);
      var txnAccounts, txnIndex := accounts, index;
      if senderPublicKey.Some? {
        var key := senderPublicKey.value;
        var sender: Account;
        if key in txnIndex && txnIndex[key] in txnAccounts {
          sender := txnAccounts[txnIndex[key]];
        } else {
          var id := idOf(key);
          if id !in txnAccounts {
            return Err(UnknownAccount);
          }
          sender := txnAccounts[id].(publicKey := Some(key));
          txnIndex := txnIndex[key := sender.id];
        }
        if sender.balance < totalAmount {
          return Err(BalanceTooLow);
        }
        sender := sender.(balance := Wrap(sender.balance as int - totalAmount as int));
        txnAccounts := txnAccounts[sender.id := sender];
      }
      var receiver := NewAccount(receiverId);
      if receiverId in txnAccounts {
        receiver := txnAccounts[receiverId];
        if senderPublicKey.None? && receiver.rewardRecipient != receiver.id {
          receiver := txnAccounts[receiverId];
        }
      }
      receiver := receiver.(balance := Wrap(receiver.balance as int + amount as int));
      txnAccounts := txnAccounts[receiver.id := receiver];
      accounts, index := txnAccounts, txnIndex;
      r := Ok;
    }

    /** Pays the generator, then executes every transaction; the first failure stops the block. */
    method ExecuteBlock(height: nat, generator: nat, txs: seq<Tx>) returns (ok: bool)
      requires height < REWARD_RECIPIENT_START_HEIGHT
      modifies this
      ensures (Ledger(), ok) == Executed(old(Ledger()), height, generator, txs, idOf)
    {
      hide Wrap, Transferred, BlockReward;
      var reward := Wrap(BlockReward(height));
      RewardFits(height);
      for i := 0 to |txs|
        invariant reward == RewardAndFees(height, txs[..i])
        invariant Ledger() == old(Ledger())
      {
        assert txs[..i + 1][..i] == txs[..i];
        reward := Wrap(reward as int + Wrap(txs[i].fee) as int);
      }
      assert txs[..|txs|] == txs;
      var r := TransferBurst(None, generator, reward, 0);
      if r != Ok {
        return false;
      }
      ghost var paid := Ledger();
      for i := 0 to |txs|
        invariant RunTxs(paid, txs, idOf) == RunTxs(Ledger(), txs[i..], idOf)
      {
        assert txs[i..][1..] == txs[i + 1..];
        r := TransferBurst(Some(txs[i].sender), txs[i].recipient, Wrap(txs[i].amount), Wrap(txs[i].fee));
        if r != Ok {
          return false;
        }
      }
      ok := true;
    }
  }

  /** The unsigned amounts of a transaction header. */
  datatype Tx = Tx(sender: Key, recipient: nat, amount: nat, fee: nat)

  ghost function RewardAndFees(height: nat, txs: seq<Tx>): Coins
  {
    if txs == [] then Wrap(BlockReward(height))
    else Wrap(RewardAndFees(height, txs[..|txs| - 1]) as int + Wrap(txs[|txs| - 1].fee) as int)
  }

  ghost function RunTxs(s: State, txs: seq<Tx>, idOf: Key -> nat): (State, bool)
    decreases |txs|
  {
    if txs == [] then (s, true)
    else
      var (s', r) := Transferred(s, Some(txs[0].sender), txs[0].recipient, Wrap(txs[0].amount), Wrap(txs[0].fee), idOf);
      if r == Ok then RunTxs(s', txs[1..], idOf) else (s', false)
  }

  ghost function Executed(s: State, height: nat, generator: nat, txs: seq<Tx>, idOf: Key -> nat): (State, bool)
  {
    var (s', r) := Transferred(s, None, generator, RewardAndFees(height, txs), 0, idOf);
    if r == Ok then RunTxs(s', txs, idOf) else (s', false)
  }

  lemma RewardFits(height: nat)
    requires height < REWARD_RECIPIENT_START_HEIGHT
    ensures BlockReward(height) == if height == 0 then 0 else 10000 * ONE_BURST
  {
  }

  /** Rewards in the first months, at their borders and at the end. */
  lemma RewardTable()
    ensures BlockReward(1) == BlockReward(10799) == 1000000000000 && BlockReward(10800) == 950000000000
    ensures BlockReward(21600) == 902500000000 && BlockReward(32400) == 857300000000
    ensures BlockReward(0) == BlockReward(1944000) == 0
  {
  }

  // ---------- what transfers keep ----------

  /** Accounts are filed under their ids, and every indexed key under the existing account its id is derived from. */
  ghost predicate Consistent(s: State, idOf: Key -> nat)
  {
    && (forall id :: id in s.accounts ==> s.accounts[id].id == id)
    && (forall key :: key in s.index ==> s.index[key] == idOf(key) && s.index[key] in s.accounts)
  }

  ghost predicate NonNegative(s: State)
  {
    forall id :: id in s.accounts ==> s.accounts[id].balance >= 0
  }

  lemma CreditKeeps(s: State, receiver: nat, amount: int, idOf: Key -> nat)
    requires Consistent(s, idOf)
    ensures Consistent(Credited(s, receiver, amount), idOf)
  {
    hide Wrap;
  }

  lemma DebitKeeps(s: State, key: Key, total: int, idOf: Key -> nat)
    requires Consistent(s, idOf) && Payer(s, key, idOf).Some?
    ensures Consistent(Debited(s, key, Payer(s, key, idOf).value, total), idOf)
    ensures Payer(s, key, idOf).value.id == idOf(key)
    ensures Payer(s, key, idOf).value.balance == BalanceOf(s.accounts, idOf(key))
  {
    hide Wrap;
  }

  /** The index stays right, whatever the amounts; a failed transfer changes nothing. */
  lemma TransferKeeps(s: State, sender: Option<Key>, receiver: nat, amount: int, fee: int, idOf: Key -> nat)
    requires Consistent(s, idOf)
    ensures var (s', r) := Transferred(s, sender, receiver, amount, fee, idOf);
            Consistent(s', idOf) && (r != Ok ==> s' == s)
  {
    hide Wrap, Payer, Debited, Credited, Consistent;
    match sender
    case None => CreditKeeps(s, receiver, amount, idOf);
    case Some(key) =>
      if Payer(s, key, idOf).Some? {
        var total := Wrap(amount + fee);
        DebitKeeps(s, key, total, idOf);
        CreditKeeps(Debited(s, key, Payer(s, key, idOf).value, total), receiver, amount, idOf);
      }
  }

  lemma CreditTotal(s: State, receiver: nat, amount: int, idOf: Key -> nat)
    requires Consistent(s, idOf)
    ensures Total(Credited(s, receiver, amount).accounts)
         == Total(s.accounts) - BalanceOf(s.accounts, receiver) + Wrap(BalanceOf(s.accounts, receiver) + amount)
  {
    hide Wrap, Total;
    var a := if receiver in s.accounts then s.accounts[receiver] else NewAccount(receiver);
    TotalUpdate(s.accounts, a.id, a.(balance := Wrap(a.balance + amount)));
  }

  lemma DebitTotal(s: State, key: Key, total: int, idOf: Key -> nat)
    requires Consistent(s, idOf) && Payer(s, key, idOf).Some?
    ensures var (b, t) := (BalanceOf(s.accounts, idOf(key)), Debited(s, key, Payer(s, key, idOf).value, total));
            Total(t.accounts) == Total(s.accounts) - b + Wrap(b - total)
    ensures forall id :: BalanceOf(Debited(s, key, Payer(s, key, idOf).value, total).accounts, id)
                      == if id == idOf(key) then Wrap(BalanceOf(s.accounts, id) - total) else BalanceOf(s.accounts, id)
  {
    hide Wrap, Total;
    DebitKeeps(s, key, total, idOf);
    var p := Payer(s, key, idOf).value;
    TotalUpdate(s.accounts, p.id, p.(balance := Wrap(p.balance - total)));
  }

  /** What a transfer adds to the total: the whole amount when it is created, else minus the fee. */
  ghost function Created(sender: Option<Key>, amount: int, fee: int): int
  {
    if sender == None then amount else -fee
  }

  /** Modulo 2^64 coins are conserved by every transfer that succeeds, whatever wraps. */
  lemma TransferConservesModulo(s: State, sender: Option<Key>, receiver: nat, amount: int, fee: int, idOf: Key -> nat)
    requires Consistent(s, idOf) && Transferred(s, sender, receiver, amount, fee, idOf).1 == Ok
    ensures Cong(Total(Transferred(s, sender, receiver, amount, fee, idOf).0.accounts),
                 Total(s.accounts) + Created(sender, amount, fee), TWO_64)
  {
    hide Wrap, Total, Cong, Credited, Debited, Payer, Consistent, BalanceOf;
    match sender
    case None =>
      CreditTotal(s, receiver, amount, idOf);
      ReplacedModulo(Total(s.accounts), BalanceOf(s.accounts, receiver), amount);
    case Some(key) =>
      var total := Wrap(amount + fee);
      var t := Debited(s, key, Payer(s, key, idOf).value, total);
      DebitKeeps(s, key, total, idOf);
      DebitTotal(s, key, total, idOf);
      CreditTotal(t, receiver, amount, idOf);
      ReplacedModulo(Total(s.accounts), BalanceOf(s.accounts, idOf(key)), -(total as int));
      ReplacedModulo(Total(t.accounts), BalanceOf(t.accounts, receiver), amount);
      SumModulo(Total(Credited(t, receiver, amount).accounts), Total(t.accounts), Total(s.accounts), total, amount,
          fee);
  }

  lemma ReplacedModulo(total: int, b: int, d: int)
    ensures Cong(total - b + Wrap(b + d), total + d, TWO_64)
  {
    WrapCong(b + d);
    CongRefl(total - b, TWO_64);
    CongAdd(total - b, total - b, Wrap(b + d), b + d, TWO_64);
  }

  lemma SumModulo(t2: int, t1: int, t0: int, total: int, amount: int, fee: int)
    requires Cong(t1, t0 - total, TWO_64) && Cong(t2, t1 + amount, TWO_64) && total == Wrap(amount + fee)
    ensures Cong(t2, t0 - fee, TWO_64)
  {
    hide Cong, Wrap;
    WrapCong(amount + fee);
    CongRefl(amount, TWO_64);
    CongRefl(t0, TWO_64);
    CongAdd(t1, t0 - total, amount, amount, TWO_64);
    CongTrans(t2, t1 + amount, t0 - total + amount, TWO_64);
    CongSub(t0, t0, total, amount + fee, TWO_64);
    CongAdd(t0 - total, t0 - (amount + fee), amount, amount, TWO_64);
    CongTrans(t2, t0 - total + amount, t0 - (amount + fee) + amount, TWO_64);
  }

  /** A block's effect on the total, modulo 2^64: exactly its reward, for all amounts and fees. */
  lemma {:induction false} RunConservesModulo(s: State, txs: seq<Tx>, idOf: Key -> nat)
    requires Consistent(s, idOf) && RunTxs(s, txs, idOf).1
    ensures Consistent(RunTxs(s, txs, idOf).0, idOf)
    ensures Cong(Total(RunTxs(s, txs, idOf).0.accounts), Total(s.accounts) - WrappedFees(txs), TWO_64)
    decreases |txs|
  {
    hide Wrap, Total, Cong, Consistent, Transferred;
    if txs == [] {
      CongRefl(Total(s.accounts), TWO_64);
    } else {
      var tx := txs[0];
      var (amount, fee) := (Wrap(tx.amount), Wrap(tx.fee));
      var s' := Transferred(s, Some(tx.sender), tx.recipient, amount, fee, idOf).0;
      TransferKeeps(s, Some(tx.sender), tx.recipient, amount, fee, idOf);
      TransferConservesModulo(s, Some(tx.sender), tx.recipient, amount, fee, idOf);
      RunConservesModulo(s', txs[1..], idOf);
      ChainModulo(Total(RunTxs(s, txs, idOf).0.accounts), Total(s'.accounts), Total(s.accounts),
          WrappedFees(txs[1..]), fee);
    }
  }

  lemma ChainModulo(t2: int, t1: int, t0: int, rest: int, fee: int)
    requires Cong(t2, t1 - rest, TWO_64) && Cong(t1, t0 - fee, TWO_64)
    ensures Cong(t2, t0 - (fee + rest), TWO_64)
  {
    hide Cong;
    CongRefl(rest, TWO_64);
    CongSub(t1, t0 - fee, rest, rest, TWO_64);
    CongTrans(t2, t1 - rest, t0 - fee - rest, TWO_64);
  }

  ghost function WrappedFees(txs: seq<Tx>): int
  {
    if txs == [] then 0 else Wrap(txs[0].fee) + WrappedFees(txs[1..])
  }

  lemma {:induction false} WrappedFeesSnoc(txs: seq<Tx>)
    requires txs != []
    ensures WrappedFees(txs) == WrappedFees(txs[..|txs| - 1]) + Wrap(txs[|txs| - 1].fee)
  {
    hide Wrap;
    if |txs| > 1 {
      WrappedFeesSnoc(txs[1..]);
      assert txs[1..][..|txs| - 2] == txs[..|txs| - 1][1..];
    }
  }

  lemma {:induction false} RewardModulo(height: nat, txs: seq<Tx>)
    ensures Cong(RewardAndFees(height, txs), BlockReward(height) + WrappedFees(txs), TWO_64)
  {
    hide Wrap, Cong, BlockReward;
    if txs == [] {
      WrapCong(BlockReward(height));
    } else {
      var before, fee := RewardAndFees(height, txs[..|txs| - 1]), Wrap(txs[|txs| - 1].fee);
      RewardModulo(height, txs[..|txs| - 1]);
      WrappedFeesSnoc(txs);
      WrapCong(before as int + fee as int);
      CongRefl(fee, TWO_64);
      CongAdd(before, BlockReward(height) + WrappedFees(txs[..|txs| - 1]), fee, fee, TWO_64);
      CongTrans(RewardAndFees(height, txs), before as int + fee as int, BlockReward(height) + WrappedFees(txs), TWO_64);
    }
  }

  /** A block whose transfers all succeed changes the total by its reward, modulo 2^64, whatever its amounts are. */
  lemma BlockConservesModulo(s: State, height: nat, generator: nat, txs: seq<Tx>, idOf: Key -> nat)
    requires Consistent(s, idOf) && Executed(s, height, generator, txs, idOf).1
    ensures Cong(Total(Executed(s, height, generator, txs, idOf).0.accounts),
                 Total(s.accounts) + BlockReward(height), TWO_64)
  {
    hide Wrap, Total, Cong, Consistent, Transferred, BlockReward, RewardAndFees, RunTxs, WrappedFees;
    var r := RewardAndFees(height, txs);
    var paid := Transferred(s, None, generator, r, 0, idOf).0;
    TransferKeeps(s, None, generator, r, 0, idOf);
    TransferConservesModulo(s, None, generator, r, 0, idOf);
    RunConservesModulo(paid, txs, idOf);
    RewardModulo(height, txs);
    BlockModulo(Total(RunTxs(paid, txs, idOf).0.accounts), Total(paid.accounts), Total(s.accounts), r,
                BlockReward(height), WrappedFees(txs));
  }

  lemma BlockModulo(t2: int, t1: int, t0: int, r: int, reward: int, fees: int)
    requires Cong(t2, t1 - fees, TWO_64) && Cong(t1, t0 + r, TWO_64) && Cong(r, reward + fees, TWO_64)
    ensures Cong(t2, t0 + reward, TWO_64)
  {
    hide Cong;
    CongRefl(t0, TWO_64);
    CongRefl(fees, TWO_64);
    CongAdd(t0, t0, r, reward + fees, TWO_64);
    CongTrans(t1, t0 + r, t0 + (reward + fees), TWO_64);
    CongSub(t1, t0 + (reward + fees), fees, fees, TWO_64);
    CongTrans(t2, t1 - fees, t0 + (reward + fees) - fees, TWO_64);
  }

  // ---------- exact conservation ----------

  ghost predicate Sound(s: State, idOf: Key -> nat)
  {
    Consistent(s, idOf) && NonNegative(s)
  }

  /** No balance exceeds the total. */
  lemma {:induction false} BalanceBelowTotal(accounts: map<nat, Account>, id: nat)
    requires forall k :: k in accounts ==> accounts[k].balance >= 0
    ensures 0 <= BalanceOf(accounts, id) <= Total(accounts)
    decreases |accounts|
  {
    TotalWithout(accounts, id);
    if accounts - {id} != map[] {
      var k :| k in accounts - {id};
      if id in accounts {
        Smaller(accounts, id);
        BalanceBelowTotal(accounts - {id}, k);
      } else {
        assert accounts - {id} == accounts;
        Smaller(accounts, k);
        TotalWithout(accounts, k);
        BalanceBelowTotal(accounts - {k}, id);
      }
    }
  }

  lemma CreditExact(s: State, receiver: nat, amount: int, idOf: Key -> nat)
    requires Sound(s, idOf) && 0 <= amount && Total(s.accounts) + amount < TWO_63
    ensures Sound(Credited(s, receiver, amount), idOf)
    ensures Total(Credited(s, receiver, amount).accounts) == Total(s.accounts) + amount
  {
    hide Wrap, Total;
    BalanceBelowTotal(s.accounts, receiver);
    WrapCong(BalanceOf(s.accounts, receiver) + amount);
    CreditKeeps(s, receiver, amount, idOf);
    CreditTotal(s, receiver, amount, idOf);
  }

  lemma DebitExact(s: State, key: Key, total: int, idOf: Key -> nat)
    requires Sound(s, idOf) && Payer(s, key, idOf).Some? && 0 <= total <= Payer(s, key, idOf).value.balance
    ensures var t := Debited(s, key, Payer(s, key, idOf).value, total);
            Sound(t, idOf) && Total(t.accounts) == Total(s.accounts) - total
  {
    hide Wrap, Total;
    DebitKeeps(s, key, total, idOf);
    DebitTotal(s, key, total, idOf);
    WrapCong(BalanceOf(s.accounts, idOf(key)) - total);
  }

  /** Amounts a signed 64-bit transfer can carry. */
  ghost predicate Payable(amount: int, fee: int)
  {
    0 <= amount && 0 <= fee && amount + fee < TWO_63
  }

  /** With payable amounts and a total below 2^63, a transfer moves coins exactly and leaves no balance negative. */
  lemma TransferConserves(s: State, sender: Option<Key>, receiver: nat, amount: int, fee: int, idOf: Key -> nat)
    requires Sound(s, idOf) && Payable(amount, fee)
    requires Total(s.accounts) + (if sender == None then amount else 0) < TWO_63
    requires Transferred(s, sender, receiver, amount, fee, idOf).1 == Ok
    ensures var s' := Transferred(s, sender, receiver, amount, fee, idOf).0;
            Sound(s', idOf) && Total(s'.accounts) == Total(s.accounts) + Created(sender, amount, fee)
  {
    hide Wrap, Total, Credited, Debited, Payer, Sound;
    match sender
    case None =>
      CreditExact(s, receiver, amount, idOf);
    case Some(key) =>
      WrapCong(amount + fee);
      DebitExact(s, key, amount + fee, idOf);
      CreditExact(Debited(s, key, Payer(s, key, idOf).value, amount + fee), receiver, amount, idOf);
  }

  ghost predicate AllPayable(txs: seq<Tx>)
  {
    forall i :: 0 <= i < |txs| ==> Payable(txs[i].amount, txs[i].fee)
  }

  ghost function Fees(txs: seq<Tx>): (f: nat)
  {
    if txs == [] then 0 else txs[0].fee + Fees(txs[1..])
  }

  lemma {:induction false} FeesSnoc(txs: seq<Tx>)
    requires txs != []
    ensures Fees(txs) == Fees(txs[..|txs| - 1]) + txs[|txs| - 1].fee
  {
    if |txs| > 1 {
      FeesSnoc(txs[1..]);
      assert txs[1..][..|txs| - 2] == txs[..|txs| - 1][1..];
    }
  }

  lemma {:induction false} RewardExact(height: nat, txs: seq<Tx>)
    requires AllPayable(txs) && 0 <= BlockReward(height) && BlockReward(height) + Fees(txs) < TWO_63
    ensures RewardAndFees(height, txs) == BlockReward(height) + Fees(txs)
  {
    hide Wrap, BlockReward;
    if txs == [] {
      WrapCong(BlockReward(height));
    } else {
      FeesSnoc(txs);
      RewardExact(height, txs[..|txs| - 1]);
      WrapCong(txs[|txs| - 1].fee);
      WrapCong(BlockReward(height) + Fees(txs));
    }
  }

  lemma {:induction false} RunConserves(s: State, txs: seq<Tx>, idOf: Key -> nat)
    requires Sound(s, idOf) && AllPayable(txs) && Total(s.accounts) < TWO_63 && RunTxs(s, txs, idOf).1
    ensures Sound(RunTxs(s, txs, idOf).0, idOf)
    ensures Total(RunTxs(s, txs, idOf).0.accounts) == Total(s.accounts) - Fees(txs)
    decreases |txs|
  {
    hide Wrap, Total, Sound, Transferred;
    if txs != [] {
      var tx := txs[0];
      WrapCong(tx.amount);
      WrapCong(tx.fee);
      TransferConserves(s, Some(tx.sender), tx.recipient, tx.amount, tx.fee, idOf);
      RunConserves(Transferred(s, Some(tx.sender), tx.recipient, tx.amount, tx.fee, idOf).0, txs[1..], idOf);
    }
  }

  /** Below height 6500 a block whose transfers all succeed raises the total by exactly its reward. */
  lemma BlockConserves(s: State, height: nat, generator: nat, txs: seq<Tx>, idOf: Key -> nat)
    requires height < REWARD_RECIPIENT_START_HEIGHT && Sound(s, idOf) && AllPayable(txs)
    requires Total(s.accounts) + BlockReward(height) + Fees(txs) < TWO_63
    requires Executed(s, height, generator, txs, idOf).1
    ensures var s' := Executed(s, height, generator, txs, idOf).0;
            Sound(s', idOf) && Total(s'.accounts) == Total(s.accounts) + BlockReward(height)
  {
    hide Wrap, Total, Sound, Transferred, BlockReward, RewardAndFees, RunTxs, Fees, AllPayable;
    RewardFits(height);
    TotalNonNegative(s, idOf);
    RewardExact(height, txs);
    var r := BlockReward(height) + Fees(txs);
    TransferConserves(s, None, generator, r, 0, idOf);
    RunConserves(Transferred(s, None, generator, r, 0, idOf).0, txs, idOf);
  }

  lemma TotalNonNegative(s: State, idOf: Key -> nat)
    requires Sound(s, idOf)
    ensures Total(s.accounts) >= 0
  {
    BalanceBelowTotal(s.accounts, 0);
  }

  // ---------- whole chains ----------

  datatype Block = Block(generator: nat, txs: seq<Tx>)

  /** The blocks executed in order from height 0; the first that fails ends the chain. */
  ghost function Chained(blocks: seq<Block>, idOf: Key -> nat): (State, bool)
  {
    if blocks == [] then (State(map[], map[]), true)
    else
      var (s, ok) := Chained(blocks[..|blocks| - 1], idOf);
      var b := blocks[|blocks| - 1];
      if ok then Executed(s, |blocks| - 1, b.generator, b.txs, idOf) else (s, false)
  }

  /** Payable amounts, and fees that leave room for the total. */
  ghost predicate Modest(b: Block)
  {
    AllPayable(b.txs) && Fees(b.txs) < 0x4000_0000_0000_0000
  }

  /** However the coins moved, below height 6500 the accounts hold ten thousand for every block after the first. */
  lemma {:induction false} ChainMints(blocks: seq<Block>, idOf: Key -> nat)
    requires |blocks| <= REWARD_RECIPIENT_START_HEIGHT && (forall b :: b in blocks ==> Modest(b))
    requires Chained(blocks, idOf).1
    ensures Sound(Chained(blocks, idOf).0, idOf)
    ensures Total(Chained(blocks, idOf).0.accounts) == if blocks == [] then 0 else (|blocks| - 1) * 10000 * ONE_BURST
  {
    hide Executed, BlockReward, Fees, AllPayable;
    if blocks != [] {
      var b, before := blocks[|blocks| - 1], blocks[..|blocks| - 1];
      ChainMints(before, idOf);
      RewardFits(|before|);
      assert b in blocks;
      BlockConserves(Chained(before, idOf).0, |before|, b.generator, b.txs, idOf);
    }
  }

  // ---------- when balances stay nonnegative ----------

  lemma WrapSign(x: int)
    requires -TWO_63 <= x < TWO_64
    ensures Wrap(x) >= 0 <==> 0 <= x < TWO_63
  {
    if x >= TWO_63 {
      RemainderUnique(x + TWO_63, x - TWO_63, 1, TWO_64);
    } else {
      WrapCong(x);
    }
  }

  lemma WrapSame(x: int, y: int)
    requires Cong(x, y, TWO_64)
    ensures Wrap(x) == Wrap(y)
  {
    CongRefl(TWO_63, TWO_64);
    CongAdd(x, y, TWO_63, TWO_63, TWO_64);
  }

  ghost predicate AllNonNegative(accounts: map<nat, Account>)
  {
    forall id: nat :: BalanceOf(accounts, id) >= 0
  }

  lemma NonNegativeBalances(s: State)
    ensures NonNegative(s) <==> AllNonNegative(s.accounts)
  {
    if AllNonNegative(s.accounts) {
      forall id | id in s.accounts ensures s.accounts[id].balance >= 0 {
        assert BalanceOf(s.accounts, id) >= 0;
      }
    }
  }

  lemma CreditBalances(s: State, receiver: nat, amount: int, idOf: Key -> nat)
    requires Consistent(s, idOf)
    ensures forall id :: BalanceOf(Credited(s, receiver, amount).accounts, id)
                      == if id == receiver then Wrap(BalanceOf(s.accounts, id) + amount) else BalanceOf(s.accounts, id)
  {
    hide Wrap;
  }

  /** Paying oneself costs the fee, however the sums wrap. */
  lemma SelfPayment(b: int, amount: int, fee: int)
    ensures Wrap(Wrap(b - Wrap(amount + fee)) + amount) == Wrap(b - fee)
  {
    hide Wrap, Cong;
    var t := Wrap(amount + fee) as int;
    WrapCong(amount + fee);
    WrapCong(b - t);
    CongRefl(b, TWO_64);
    CongRefl(amount, TWO_64);
    CongSub(b, b, t, amount + fee, TWO_64);
    CongTrans(Wrap(b - t), b - t, b - (amount + fee), TWO_64);
    CongAdd(Wrap(b - t), b - (amount + fee), amount, amount, TWO_64);
    assert b - (amount + fee) + amount == b - fee;
    WrapSame(Wrap(b - t) + amount, b - fee);
  }

  /**
   A successful transfer leaves no balance negative exactly when the debit does
   not push the payer's balance out of the machine word and the credit lands
   between zero and the word's end; paying oneself, when the fee is affordable.
   */
  lemma NonNegativeIff(s: State, sender: Option<Key>, receiver: nat, amount: Coins, fee: Coins, idOf: Key -> nat)
    requires Sound(s, idOf) && Transferred(s, sender, receiver, amount, fee, idOf).1 == Ok
    ensures NonNegative(Transferred(s, sender, receiver, amount, fee, idOf).0) <==>
            if sender == None then 0 <= BalanceOf(s.accounts, receiver) + amount < TWO_63
            else if receiver == idOf(sender.value) then 0 <= BalanceOf(s.accounts, receiver) - fee < TWO_63
            else BalanceOf(s.accounts, idOf(sender.value)) - Wrap(amount as int + fee as int) < TWO_63
                 && 0 <= BalanceOf(s.accounts, receiver) + amount < TWO_63
  {
    hide Wrap, Total, Credited, Debited, Payer, Consistent, AllNonNegative, NonNegative, BalanceOf;
    var before, s' := s.accounts, Transferred(s, sender, receiver, amount, fee, idOf).0;
    NonNegativeBalances(s);
    NonNegativeBalances(s');
    var rb := BalanceOf(before, receiver);
    BalanceFits(before, receiver);
    match sender
    case None =>
      CreditBalances(s, receiver, amount, idOf);
      OneChanged(before, s'.accounts, receiver);
      WrapSign(rb + amount);
    case Some(key) =>
      var total := Wrap(amount as int + fee as int) as int;
      var payer, b := idOf(key), BalanceOf(before, idOf(key));
      BalanceFits(before, payer);
      DebitKeeps(s, key, total, idOf);
      DebitTotal(s, key, total, idOf);
      var t := Debited(s, key, Payer(s, key, idOf).value, total);
      CreditBalances(t, receiver, amount, idOf);
      TwoChanged(before, s'.accounts, payer, receiver);
      WrapSign(b - total);
      WrapSign(rb + amount);
      SelfPayment(b, amount, fee);
      WrapSign(b - fee);
  }

  lemma BalanceFits(accounts: map<nat, Account>, id: nat)
    ensures -TWO_63 <= BalanceOf(accounts, id) < TWO_63
    ensures AllNonNegative(accounts) ==> BalanceOf(accounts, id) >= 0
  {
  }

  lemma OneChanged(before: map<nat, Account>, after: map<nat, Account>, a: nat)
    requires AllNonNegative(before)
    requires forall id: nat :: id != a ==> BalanceOf(after, id) == BalanceOf(before, id)
    ensures AllNonNegative(after) <==> BalanceOf(after, a) >= 0
  {
  }

  lemma TwoChanged(before: map<nat, Account>, after: map<nat, Account>, a: nat, b: nat)
    requires AllNonNegative(before)
    requires forall id: nat :: id != a && id != b ==> BalanceOf(after, id) == BalanceOf(before, id)
    ensures AllNonNegative(after) <==> BalanceOf(after, a) >= 0 && BalanceOf(after, b) >= 0
  {
  }

  /** A negative amount, which a large unsigned one becomes, passes the balance test and overdraws the receiver. */
  lemma NegativeAmountOverdraws(key: Key, idOf: Key -> nat)
    requires idOf(key) == 1
    ensures var s := State(map[1 := NewAccount(1), 2 := NewAccount(2)], map[]);
            var (s', r) := Transferred(s, Some(key), 2, Wrap(TWO_64 - 5), 0, idOf);
            Sound(s, idOf) && r == Ok && !NonNegative(s')
  {
    var s := State(map[1 := NewAccount(1), 2 := NewAccount(2)], map[]);
    WrapIs();
    NonNegativeIff(s, Some(key), 2, -5, 0, idOf);
  }

  lemma WrapIs()
    ensures Wrap(TWO_64 - 5) == -5 && Wrap(-5) == -5
  {
  }
}
