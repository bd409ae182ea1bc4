/** Who is paid: what transfers and blocks do to every single account. */
module Payments {
  import opened Ledger
  import opened Modular
  import opened Options

  // ---------- one transfer ----------

  /** What a transfer adds to an account: the amount to the receiver, minus amount and fee to the sender. */
  ghost function Change(sender: Option<Key>, receiver: nat, amount: int, fee: int, id: nat, idOf: Key -> nat): int
  {
    (if id == receiver then amount else 0)
    - (if sender.Some? && id == idOf(sender.value) then amount + fee else 0)
  }

  lemma CreditedBalance(s: State, receiver: nat, amount: int, id: nat, idOf: Key -> nat)
    requires Consistent(s, idOf)
    ensures Cong(BalanceOf(Credited(s, receiver, amount).accounts, id),
                 BalanceOf(s.accounts, id) + (if id == receiver then amount else 0), TWO_64)
  {
    hide Wrap, Cong, Consistent, Credited, BalanceOf;
    CreditBalances(s, receiver, amount, idOf);
    assert BalanceOf(Credited(s, receiver, amount).accounts, id)
        == if id == receiver then Wrap(BalanceOf(s.accounts, id) + amount) else BalanceOf(s.accounts, id);
    WrapCong(BalanceOf(s.accounts, id) + amount);
    CongRefl(BalanceOf(s.accounts, id), TWO_64);
  }

  lemma DebitedBalance(s: State, key: Key, amount: int, fee: int, id: nat, idOf: Key -> nat)
    requires Consistent(s, idOf) && Payer(s, key, idOf).Some?
    ensures Cong(BalanceOf(Debited(s, key, Payer(s, key, idOf).value, Wrap(amount + fee)).accounts, id),
                 BalanceOf(s.accounts, id) - (if id == idOf(key) then amount + fee else 0), TWO_64)
  {
    hide Wrap, Cong, Consistent, Debited, Payer, BalanceOf;
    var total: int := Wrap(amount + fee);
    var b := BalanceOf(s.accounts, id);
    DebitTotal(s, key, total, idOf);
    assert BalanceOf(Debited(s, key, Payer(s, key, idOf).value, total).accounts, id)
        == if id == idOf(key) then Wrap(b - total) else b;
    CongRefl(b, TWO_64);
    WrapCong(b - total);
    WrapCong(amount + fee);
    CongSub(b, b, total, amount + fee, TWO_64);
    CongTrans(Wrap(b - total), b - total, b - (amount + fee), TWO_64);
  }

  /** Every account changes by what the transfer says, modulo 2^64, whatever the amounts. */
  lemma TransferPaysModulo(s: State, sender: Option<Key>, receiver: nat, amount: int, fee: int, id: nat,
      idOf: Key -> nat)
    requires Consistent(s, idOf) && Transferred(s, sender, receiver, amount, fee, idOf).1 == Ok
    ensures Cong(BalanceOf(Transferred(s, sender, receiver, amount, fee, idOf).0.accounts, id),
                 BalanceOf(s.accounts, id) + Change(sender, receiver, amount, fee, id, idOf), TWO_64)
  {
    hide Wrap, Cong, Consistent, Credited, Debited, Payer, BalanceOf;
    match sender
    case None => CreditedBalance(s, receiver, amount, id, idOf);
    case Some(key) =>
      var total := Wrap(amount + fee);
      var t := Debited(s, key, Payer(s, key, idOf).value, total);
      DebitKeeps(s, key, total, idOf);
      DebitedBalance(s, key, amount, fee, id, idOf);
      CreditedBalance(t, receiver, amount, id, idOf);
      var (plus, minus) := (if id == receiver then amount else 0, if id == idOf(key) then amount + fee else 0);
      CongRefl(plus, TWO_64);
      CongAdd(BalanceOf(t.accounts, id), BalanceOf(s.accounts, id) - minus, plus, plus, TWO_64);
      CongTrans(BalanceOf(Credited(t, receiver, amount).accounts, id), BalanceOf(t.accounts, id) + plus,
                BalanceOf(s.accounts, id) - minus + plus, TWO_64);
  }

  /** With payable amounts and a total below 2^63 the change is exact. */
  lemma TransferPays(s: State, sender: Option<Key>, receiver: nat, amount: int, fee: int, id: nat, idOf: Key -> nat)
    requires Sound(s, idOf) && Payable(amount, fee)
    requires Total(s.accounts) + (if sender == None then amount else 0) < TWO_63
    requires Transferred(s, sender, receiver, amount, fee, idOf).1 == Ok
    ensures BalanceOf(Transferred(s, sender, receiver, amount, fee, idOf).0.accounts, id)
         == BalanceOf(s.accounts, id) + Change(sender, receiver, amount, fee, id, idOf)
  {
    hide Transferred, BalanceOf, Total, Cong;
    var after := Transferred(s, sender, receiver, amount, fee, idOf).0.accounts;
    TransferConserves(s, sender, receiver, amount, fee, idOf);
    TransferPaysModulo(s, sender, receiver, amount, fee, id, idOf);
    InRange(s, id, idOf);
    InRange(Transferred(s, sender, receiver, amount, fee, idOf).0, id, idOf);
    var b := BalanceOf(s.accounts, id);
    CongClose(BalanceOf(after, id), b + Change(sender, receiver, amount, fee, id, idOf), TWO_64);
  }

  lemma InRange(s: State, id: nat, idOf: Key -> nat)
    requires Sound(s, idOf)
    ensures 0 <= BalanceOf(s.accounts, id) < TWO_63
  {
  }

  /** A transfer succeeds exactly if it creates its amount, or the sender has an account with enough in it. */
  lemma TransferOutcome(s: State, sender: Option<Key>, receiver: nat, amount: int, fee: int, idOf: Key -> nat)
    requires Consistent(s, idOf)
    ensures Transferred(s, sender, receiver, amount, fee, idOf).1
         == if sender == None then Ok
            else if idOf(sender.value) !in s.accounts then Err(UnknownAccount)
            else if BalanceOf(s.accounts, idOf(sender.value)) < Wrap(amount + fee) then Err(BalanceTooLow)
            else Ok
  {
    hide Wrap, Credited, Debited;
    if sender.Some? && Payer(s, sender.value, idOf).Some? {
      DebitKeeps(s, sender.value, Wrap(amount + fee), idOf);
    }
  }

  /** The sender's account is found by its key from then on, and has that key if it was not found by it before. */
  lemma TransferActivates(s: State, key: Key, receiver: nat, amount: int, fee: int, idOf: Key -> nat)
    requires Consistent(s, idOf) && Transferred(s, Some(key), receiver, amount, fee, idOf).1 == Ok
    ensures var t := Transferred(s, Some(key), receiver, amount, fee, idOf).0;
            && key in t.index && t.index[key] == idOf(key) && idOf(key) in t.accounts
            && (forall k :: k in s.index ==> k in t.index && t.index[k] == s.index[k])
            && (forall k :: k in t.index ==> k == key || k in s.index)
            && (key !in s.index ==> t.accounts[idOf(key)].publicKey == Some(key))
            && (key in s.index ==> t.accounts[idOf(key)].publicKey == s.accounts[idOf(key)].publicKey)
  {
    hide Wrap;
  }

  /** No account but the sender's and the receiver's changes or appears. */
  lemma TransferLeavesOthers(s: State, sender: Option<Key>, receiver: nat, amount: int, fee: int, id: nat,
      idOf: Key -> nat)
    requires Consistent(s, idOf) && id != receiver && (sender.Some? ==> id != idOf(sender.value))
    ensures var t := Transferred(s, sender, receiver, amount, fee, idOf).0;
            (id in t.accounts <==> id in s.accounts) && (id in s.accounts ==> t.accounts[id] == s.accounts[id])
  {
    hide Wrap;
  }

  /** Reward recipients stay, keys stay but for the sender's, and a new account has no key and rewards itself. */
  lemma TransferKeepsNames(s: State, sender: Option<Key>, receiver: nat, amount: int, fee: int, idOf: Key -> nat)
    requires Consistent(s, idOf) && Transferred(s, sender, receiver, amount, fee, idOf).1 == Ok
    ensures var t := Transferred(s, sender, receiver, amount, fee, idOf).0;
            forall id :: id in t.accounts ==>
              var a := t.accounts[id];
              if id in s.accounts then
                a.rewardRecipient == s.accounts[id].rewardRecipient
                && (a.publicKey == s.accounts[id].publicKey || (sender.Some? && id == idOf(sender.value)))
              else
                id == receiver && a.publicKey == None && a.rewardRecipient == id
  {
    hide Wrap;
  }

  // ---------- a block ----------

  /** What a block's transactions add to an account. */
  ghost function Changes(txs: seq<Tx>, id: nat, idOf: Key -> nat): int
  {
    if txs == [] then 0
    else
      var tx := txs[0];
      Change(Some(tx.sender), tx.recipient, tx.amount, tx.fee, id, idOf) + Changes(txs[1..], id, idOf)
  }

  /** The reward and all fees, to the generator. */
  ghost function Earned(height: nat, generator: nat, txs: seq<Tx>, id: nat): int
  {
    if id == generator then BlockReward(height) + Fees(txs) else 0
  }

  /** A change in wrapped amounts is a change in the amounts themselves, modulo 2^64. */
  lemma WrappedChange(key: Key, receiver: nat, amount: nat, fee: nat, id: nat, idOf: Key -> nat)
    ensures Cong(Change(Some(key), receiver, Wrap(amount), Wrap(fee), id, idOf),
                 Change(Some(key), receiver, amount, fee, id, idOf), TWO_64)
  {
    hide Wrap, Cong;
    WrapCong(amount);
    WrapCong(fee);
    CongAdd(Wrap(amount), amount, Wrap(fee), fee, TWO_64);
    CongRefl(0, TWO_64);
    var (p, p') := (if id == receiver then Wrap(amount) as int else 0, if id == receiver then amount as int else 0);
    var (m, m') := (if id == idOf(key) then Wrap(amount) as int + Wrap(fee) as int else 0,
                    if id == idOf(key) then amount + fee else 0);
    CongSub(p, p', m, m', TWO_64);
  }

  lemma AddModulo(a: int, b: int, c: int, d: int, e: int, f: int)
    requires Cong(c, b + e, TWO_64) && Cong(b, a + d, TWO_64) && Cong(d, f, TWO_64)
    ensures Cong(c, a + (f + e), TWO_64)
  {
    hide Cong;
    CongRefl(a, TWO_64);
    CongRefl(e, TWO_64);
    CongAdd(a, a, d, f, TWO_64);
    CongTrans(b, a + d, a + f, TWO_64);
    CongAdd(b, a + f, e, e, TWO_64);
    CongTrans(c, b + e, a + f + e, TWO_64);
  }

  lemma {:induction false} RunPaysModulo(s: State, txs: seq<Tx>, id: nat, idOf: Key -> nat)
    requires Consistent(s, idOf) && RunTxs(s, txs, idOf).1
    ensures Cong(BalanceOf(RunTxs(s, txs, idOf).0.accounts, id), BalanceOf(s.accounts, id) + Changes(txs, id, idOf),
                 TWO_64)
    decreases |txs|
  {
    hide Wrap, Cong, Consistent, Transferred, BalanceOf, Change;
    if txs == [] {
      CongRefl(BalanceOf(s.accounts, id), TWO_64);
    } else {
      var tx := txs[0];
      var s' := Transferred(s, Some(tx.sender), tx.recipient, Wrap(tx.amount), Wrap(tx.fee), idOf).0;
      TransferKeeps(s, Some(tx.sender), tx.recipient, Wrap(tx.amount), Wrap(tx.fee), idOf);
      TransferPaysModulo(s, Some(tx.sender), tx.recipient, Wrap(tx.amount), Wrap(tx.fee), id, idOf);
      WrappedChange(tx.sender, tx.recipient, tx.amount, tx.fee, id, idOf);
      RunPaysModulo(s', txs[1..], id, idOf);
      AddModulo(BalanceOf(s.accounts, id), BalanceOf(s'.accounts, id), BalanceOf(RunTxs(s, txs, idOf).0.accounts, id),
                Change(Some(tx.sender), tx.recipient, Wrap(tx.amount), Wrap(tx.fee), id, idOf),
                Changes(txs[1..], id, idOf), Change(Some(tx.sender), tx.recipient, tx.amount, tx.fee, id, idOf));
    }
  }

  lemma {:induction false} FeesModulo(txs: seq<Tx>)
    ensures Cong(WrappedFees(txs), Fees(txs), TWO_64)
  {
    hide Wrap, Cong;
    if txs == [] {
      CongRefl(0, TWO_64);
    } else {
      FeesModulo(txs[1..]);
      WrapCong(txs[0].fee);
      CongAdd(Wrap(txs[0].fee), txs[0].fee, WrappedFees(txs[1..]), Fees(txs[1..]), TWO_64);
    }
  }

  /**
   After a block whose transfers all succeed every account has, modulo 2^64,
   what it had, plus the amounts it received, less the amounts and fees it sent,
   plus reward and fees if it generated the block.
   */
  lemma BlockPaysModulo(s: State, height: nat, generator: nat, txs: seq<Tx>, id: nat, idOf: Key -> nat)
    requires Consistent(s, idOf) && Executed(s, height, generator, txs, idOf).1
    ensures Cong(BalanceOf(Executed(s, height, generator, txs, idOf).0.accounts, id),
                 BalanceOf(s.accounts, id) + (Earned(height, generator, txs, id) + Changes(txs, id, idOf)), TWO_64)
  {
    hide Wrap, Cong, Consistent, Transferred, BalanceOf, BlockReward, RewardAndFees, RunTxs, Changes, WrappedFees;
    var r: int := RewardAndFees(height, txs);
    var paid := Transferred(s, None, generator, r, 0, idOf).0;
    TransferKeeps(s, None, generator, r, 0, idOf);
    TransferPaysModulo(s, None, generator, r, 0, id, idOf);
    RunPaysModulo(paid, txs, id, idOf);
    RewardModulo(height, txs);
    FeesModulo(txs);
    CongRefl(BlockReward(height), TWO_64);
    CongAdd(BlockReward(height), BlockReward(height), WrappedFees(txs), Fees(txs), TWO_64);
    CongTrans(r, BlockReward(height) + WrappedFees(txs), BlockReward(height) + Fees(txs), TWO_64);
    CongRefl(0, TWO_64);
    AddModulo(BalanceOf(s.accounts, id), BalanceOf(paid.accounts, id),
              BalanceOf(RunTxs(paid, txs, idOf).0.accounts, id), Change(None, generator, r, 0, id, idOf),
              Changes(txs, id, idOf), Earned(height, generator, txs, id));
  }

  lemma {:induction false} RunPays(s: State, txs: seq<Tx>, id: nat, idOf: Key -> nat)
    requires Sound(s, idOf) && AllPayable(txs) && Total(s.accounts) < TWO_63 && RunTxs(s, txs, idOf).1
    ensures BalanceOf(RunTxs(s, txs, idOf).0.accounts, id) == BalanceOf(s.accounts, id) + Changes(txs, id, idOf)
    decreases |txs|
  {
    hide Wrap, Total, Sound, Transferred, BalanceOf, Change;
    if txs != [] {
      var tx := txs[0];
      WrapCong(tx.amount);
      WrapCong(tx.fee);
      TransferConserves(s, Some(tx.sender), tx.recipient, tx.amount, tx.fee, idOf);
      TransferPays(s, Some(tx.sender), tx.recipient, tx.amount, tx.fee, id, idOf);
      RunPays(Transferred(s, Some(tx.sender), tx.recipient, tx.amount, tx.fee, idOf).0, txs[1..], id, idOf);
    }
  }

  /** Below height 6500, with payable amounts and room for the total, the same without any modulus. */
  lemma BlockPays(s: State, height: nat, generator: nat, txs: seq<Tx>, id: nat, idOf: Key -> nat)
    requires height < REWARD_RECIPIENT_START_HEIGHT && Sound(s, idOf) && AllPayable(txs)
    requires Total(s.accounts) + BlockReward(height) + Fees(txs) < TWO_63
    requires Executed(s, height, generator, txs, idOf).1
    ensures BalanceOf(Executed(s, height, generator, txs, idOf).0.accounts, id)
         == BalanceOf(s.accounts, id) + Earned(height, generator, txs, id) + Changes(txs, id, idOf)
  {
    hide Wrap, Total, Sound, Transferred, BlockReward, RewardAndFees, RunTxs, Fees, AllPayable, BalanceOf, Changes;
    RewardFits(height);
    TotalNonNegative(s, idOf);
    RewardExact(height, txs);
    var r := BlockReward(height) + Fees(txs);
    TransferConserves(s, None, generator, r, 0, idOf);
    TransferPays(s, None, generator, r, 0, id, idOf);
    RunPays(Transferred(s, None, generator, r, 0, idOf).0, txs, id, idOf);
  }
}
