/** The address-keyed balance ledger that `add_asset`, `remove_asset` and
    `get_asset_amount` read and write through `read_balance`,
    `receive_balance` and `spend_balance`. A key that is absent holds 0, so an
    absent entry and an entry holding 0 are the same balance. */
module Balance {
  import opened Types

  /** The stored balances, one `i128` per address. */
  type Holdings = map<Address, I128>

  /** The ledger invariant: no stored balance is negative. */
  ghost predicate NonNegative(h: Holdings) {
    forall a :: a in h ==> h[a] >= 0
  }

  /** Two ledgers that give every address the same balance. */
  ghost predicate SameBalances(h: Holdings, g: Holdings) {
    forall a :: ReadBalance(h, a) == ReadBalance(g, a)
  }

  /** `read_balance`: the stored amount, 0 when the address has none. */
  function ReadBalance(h: Holdings, a: Address): (r: I128)
    ensures a !in h ==> r == 0
    ensures NonNegative(h) ==> r >= 0
  {
    if a in h then h[a] else 0
  }

  /** `receive_balance`: adds `amount` to the balance of `a`. The sum is
      computed in `i128`, so it panics when it leaves that range. */
  function ReceiveBalance(h: Holdings, a: Address, amount: I128): (r: Result<Holdings>)
    ensures r.Ok? <==> I128_MIN <= ReadBalance(h, a) + amount <= I128_MAX
    ensures r.Err? ==> r.error == Overflow
    ensures r.Ok? ==> ReadBalance(r.value, a) == ReadBalance(h, a) + amount
    ensures r.Ok? ==> forall b :: b != a ==> ReadBalance(r.value, b) == ReadBalance(h, b)
    ensures r.Ok? && NonNegative(h) && amount >= 0 ==> NonNegative(r.value)
  {
    var sum := ReadBalance(h, a) + amount;
    if sum < I128_MIN || sum > I128_MAX then Err(Overflow) else Ok(h[a := sum])
  }

  /** `spend_balance`: subtracts `amount` from the balance of `a`, and panics
      when the balance is below `amount`. */
  function SpendBalance(h: Holdings, a: Address, amount: I128): (r: Result<Holdings>)
    ensures ReadBalance(h, a) < amount ==> r == Err(InsufficientBalance)
    ensures r.Ok? <==> amount <= ReadBalance(h, a) && ReadBalance(h, a) - amount <= I128_MAX
    ensures r.Ok? ==> ReadBalance(r.value, a) == ReadBalance(h, a) - amount >= 0
    ensures r.Ok? ==> forall b :: b != a ==> ReadBalance(r.value, b) == ReadBalance(h, b)
    ensures r.Ok? && NonNegative(h) ==> NonNegative(r.value)
  {
    var balance := ReadBalance(h, a);
    if balance < amount then Err(InsufficientBalance)
    else
      var rest := balance - amount;
      if rest > I128_MAX then Err(Overflow) else Ok(h[a := rest])
  }

  /** Receiving `amount` and then spending it again gives every address its
      old balance back. The ledger invariant is needed: from a negative
      balance, the balance after receiving is still below `amount`. */
  lemma SpendUndoesReceive(h: Holdings, a: Address, amount: I128)
    requires NonNegative(h) && ReceiveBalance(h, a, amount).Ok?
    ensures SpendBalance(ReceiveBalance(h, a, amount).value, a, amount).Ok?
    ensures SameBalances(SpendBalance(ReceiveBalance(h, a, amount).value, a, amount).value, h)
  {
  }

  /** The total of all stored balances. */
  ghost function Total(h: Holdings): int
    decreases |h|
  {
    if h == map[] then 0
    else
      var a :| a in h;
      h[a] + Total(h - {a})
  }

  /** Any stored entry can be taken out of the total first. */
  lemma {:induction false} TotalWithout(h: Holdings, a: Address)
    requires a in h
    ensures Total(h) == h[a] + Total(h - {a})
    decreases |h|
  {
    var k :| k in h && Total(h) == h[k] + Total(h - {k});
    if k != a {
      calc {
        Total(h);
      ==
        h[k] + Total(h - {k});
      == { TotalWithout(h - {k}, a); }
        h[k] + h[a] + Total(h - {k} - {a});
      == { assert h - {k} - {a} == h - {a} - {k}; }
        h[a] + h[k] + Total(h - {a} - {k});
      == { TotalWithout(h - {a}, k); }
        h[a] + Total(h - {a});
      }
    }
  }

  /** Storing `v` for `a` moves the total by `v` less the old balance of `a`. */
  lemma TotalAfterWrite(h: Holdings, a: Address, v: I128)
    ensures Total(h[a := v]) == Total(h) - ReadBalance(h, a) + v
  {
    TotalWithout(h[a := v], a);
    if a in h {
      TotalWithout(h, a);
      assert h[a := v] - {a} == h - {a};
    } else {
      assert h[a := v] - {a} == h;
    }
  }

  /** `receive_balance` raises the total by exactly `amount`. */
  lemma ReceiveRaisesTotal(h: Holdings, a: Address, amount: I128)
    requires ReceiveBalance(h, a, amount).Ok?
    ensures Total(ReceiveBalance(h, a, amount).value) == Total(h) + amount
  {
    TotalAfterWrite(h, a, ReadBalance(h, a) + amount);
  }

  /** `spend_balance` lowers the total by exactly `amount`. */
  lemma SpendLowersTotal(h: Holdings, a: Address, amount: I128)
    requires SpendBalance(h, a, amount).Ok?
    ensures Total(SpendBalance(h, a, amount).value) == Total(h) - amount
  {
    TotalAfterWrite(h, a, ReadBalance(h, a) - amount);
  }
}
