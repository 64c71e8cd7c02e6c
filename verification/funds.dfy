/**
 * The fund ledger of tefas_ui.py: actions, funds, FIFO reconciliation of a
 * fund's lots, and the cost/profit arithmetic over the surviving lots.
 *
 * An action's kind, date and price never change after parsing, so they are
 * constant fields; its share count is a mutable field because the FIFO
 * netting shrinks a lot in place, and the lot objects are shared with the
 * caller's list.
 */
module Funds {
  import opened Wrappers
  import opened Fifo
  import Sorting

  /** A calendar date, as a day number. */
  type Date = int

  /** An FX lookup, `fx_rate(currency, date)`: the rate of the base currency against `currency` on `date`. */
  type Rate = (string, Date) -> real

  datatype ActionKind = Buy | Sell

  class Action {
    const kind: ActionKind
    const date: Date
    var numShares: int
    const sharePrice: real

    constructor (kind: ActionKind, date: Date, numShares: int, sharePrice: real)
      ensures this.kind == kind && this.date == date
      ensures this.numShares == numShares && this.sharePrice == sharePrice
    {
      this.kind := kind;
      this.date := date;
      this.numShares := numShares;
      this.sharePrice := sharePrice;
    }
  }

  function DateOf(a: Action): Date
  {
    a.date
  }

  /** `sorted(actions, key=lambda action: action.date)` */
  function SortByDate(actions: seq<Action>): (r: seq<Action>)
    ensures |r| == |actions|
  {
    Sorting.SortBy(actions, DateOf)
  }

  /** Sorting neither adds nor drops an action. */
  lemma SortByDateMembers(actions: seq<Action>)
    ensures forall i :: 0 <= i < |SortByDate(actions)| ==> SortByDate(actions)[i] in actions
    ensures forall i :: 0 <= i < |actions| ==> actions[i] in SortByDate(actions)
  {
    var sorted := SortByDate(actions);
    Sorting.SortByPermutes(actions, DateOf);
    forall i | 0 <= i < |sorted|
      ensures sorted[i] in actions
    {
      assert sorted[i] in multiset(sorted);
    }
    forall i | 0 <= i < |actions|
      ensures actions[i] in sorted
    {
      assert actions[i] in multiset(actions);
    }
  }

  predicate DateSorted(s: seq<Action>)
  {
    Sorting.SortedBy(s, DateOf)
  }

  /**
   * No action object occurs twice in the list. Stated recursively so that the
   * solver only learns about the pairs a proof asks for (see DistinctAt).
   */
  predicate Distinct(s: seq<Action>)
  {
    s == [] || (s[0] !in s[1..] && Distinct(s[1..]))
  }

  lemma {:induction false} DistinctAt(s: seq<Action>, i: nat, j: nat)
    requires Distinct(s) && i < |s| && j < |s| && i != j
    ensures s[i] != s[j]
  {
    if i > 0 && j > 0 {
      DistinctAt(s[1..], i - 1, j - 1);
    }
  }

  lemma {:induction false} DistinctIntro(s: seq<Action>)
    requires forall i, j :: 0 <= i < j < |s| ==> s[i] != s[j]
    ensures Distinct(s)
  {
    if s != [] {
      DistinctIntro(s[1..]);
    }
  }

  /** The actions of kind `k`, in list order. */
  function OfKind(s: seq<Action>, k: ActionKind): (r: seq<Action>)
    ensures |r| <= |s| && forall i :: 0 <= i < |r| ==> r[i].kind == k
  {
    if s == [] then []
    else (if s[0].kind == k then [s[0]] else []) + OfKind(s[1..], k)
  }

  lemma {:induction false} OfKindMembers(s: seq<Action>, k: ActionKind)
    ensures forall i :: 0 <= i < |OfKind(s, k)| ==> OfKind(s, k)[i] in s
    ensures forall i :: 0 <= i < |s| && s[i].kind == k ==> s[i] in OfKind(s, k)
  {
    if s != [] {
      OfKindMembers(s[1..], k);
      var rest := OfKind(s[1..], k);
      var r := OfKind(s, k);
      assert r == (if s[0].kind == k then [s[0]] else []) + rest;
      forall i | 0 <= i < |r|
        ensures r[i] in s
      {
        if s[0].kind != k {
          assert r[i] == rest[i] && rest[i] in s[1..];
        } else if i > 0 {
          assert r[i] == rest[i - 1] && rest[i - 1] in s[1..];
        }
      }
      forall i | 0 <= i < |s| && s[i].kind == k
        ensures s[i] in r
      {
        if i > 0 {
          assert s[i] == s[1..][i - 1];
          assert s[i] in rest;
        }
      }
    }
  }

  /** The date-sorted BUY list that `deduct_sales` nets against. */
  function Buys(actions: seq<Action>): (r: seq<Action>)
    ensures forall i :: 0 <= i < |r| ==> r[i].kind == Buy
  {
    OfKind(SortByDate(actions), Buy)
  }

  /** The date-sorted SELL list that `deduct_sales` applies in order. */
  function Sells(actions: seq<Action>): (r: seq<Action>)
    ensures forall i :: 0 <= i < |r| ==> r[i].kind == Sell
  {
    OfKind(SortByDate(actions), Sell)
  }

  /** The BUY and SELL lists hold exactly the input's actions of their kind. */
  lemma SplitMembers(actions: seq<Action>)
    ensures forall i :: 0 <= i < |Buys(actions)| ==> Buys(actions)[i] in actions
    ensures forall i :: 0 <= i < |Sells(actions)| ==> Sells(actions)[i] in actions
    ensures forall i :: 0 <= i < |actions| && actions[i].kind == Buy ==> actions[i] in Buys(actions)
    ensures forall i :: 0 <= i < |actions| && actions[i].kind == Sell ==> actions[i] in Sells(actions)
  {
    var sorted := SortByDate(actions);
    SortByDateMembers(actions);
    OfKindMembers(sorted, Buy);
    OfKindMembers(sorted, Sell);
    forall i | 0 <= i < |actions| && actions[i].kind == Buy
      ensures actions[i] in Buys(actions)
    {
      var j :| 0 <= j < |sorted| && sorted[j] == actions[i];
    }
    forall i | 0 <= i < |actions| && actions[i].kind == Sell
      ensures actions[i] in Sells(actions)
    {
      var j :| 0 <= j < |sorted| && sorted[j] == actions[i];
    }
  }

  /** The share counts of the actions, in list order, as they are in the current state. */
  function Counts(s: seq<Action>): (r: seq<int>)
    reads s
    ensures |r| == |s| && forall i {:trigger r[i]} :: 0 <= i < |s| ==> r[i] == s[i].numShares
  {
    if s == [] then [] else [s[0].numShares] + Counts(s[1..])
  }

  /** The shares held by the actions of kind `k`, in the current state. */
  function Shares(s: seq<Action>, k: ActionKind): int
    reads s
  {
    if s == [] then 0 else (if s[0].kind == k then s[0].numShares else 0) + Shares(s[1..], k)
  }

  /** What `deduct_sales` does to a fund whose actions are `actions`, read off the current state. */
  function Reconciled(actions: seq<Action>): (r: Outcome)
    reads set a | a in actions
    ensures r.Netted? ==> r.lots.Valid() && |r.lots.counts| == |Buys(actions)|
    ensures r.Oversold? ==> |r.counts| == |Buys(actions)|
  {
    SplitMembers(actions);
    Net(Lots(Counts(Buys(actions)), 0), Counts(Sells(actions)))
  }

  lemma {:induction false} OfKindSnoc(s: seq<Action>, x: Action, k: ActionKind)
    ensures OfKind(s + [x], k) == OfKind(s, k) + (if x.kind == k then [x] else [])
  {
    if s != [] {
      assert (s + [x])[1..] == s[1..] + [x];
      OfKindSnoc(s[1..], x, k);
    } else {
      assert [x][1..] == [];
    }
  }

  /** The `defaultdict(list)` loop: splits the sorted actions into the BUY list and the SELL list. */
  method Partition(sorted: seq<Action>) returns (buys: seq<Action>, sells: seq<Action>)
    ensures buys == OfKind(sorted, Buy) && sells == OfKind(sorted, Sell)
  {
    buys, sells := [], [];
    for i := 0 to |sorted|
      invariant buys == OfKind(sorted[..i], Buy) && sells == OfKind(sorted[..i], Sell)
    {
      assert sorted[..i + 1] == sorted[..i] + [sorted[i]];
      OfKindSnoc(sorted[..i], sorted[i], Buy);
      OfKindSnoc(sorted[..i], sorted[i], Sell);
      if sorted[i].kind == Buy {
        buys := buys + [sorted[i]];
      } else {
        sells := sells + [sorted[i]];
      }
    }
    assert sorted[..|sorted|] == sorted;
  }

  /**
   * `deduct_shares`: takes `numShares` from the front of the working BUY
   * list. The working list is `buys[front..]`: removing its first lot
   * (`buys.remove(buy)`, which always hits the front) is `front + 1`. A lot
   * larger than what is still owed is shrunk in place; any other lot is
   * removed and its shares come off the amount owed. Running out of lots is
   * the "Can't deduct any more shares." error.
   */
  method DeductShares(buys: seq<Action>, front: nat, numShares: int) returns (r: Result<nat, string>)
    requires front <= |buys| && Distinct(buys)
    modifies buys
    ensures r.Failure? <==> Deduct(Lots(old(Counts(buys)), front), numShares).None?
    ensures r.Failure? ==> Counts(buys) == old(Counts(buys))
    ensures r.Success? ==> Lots(Counts(buys), r.value) == Deduct(Lots(old(Counts(buys)), front), numShares).value
  {
    ghost var counts := Counts(buys);
    ghost var target := Deduct(Lots(counts, front), numShares);
    var owed := numShares;
    var i := front;
    // The loop only walks and drops lots; the one in-place update happens after it.
    while i < |buys|
      modifies {}
      invariant front <= i <= |buys|
      invariant Deduct(Lots(counts, i), owed) == target
    {
      DeductUnfold(Lots(counts, i), owed);
      if buys[i].numShares > owed {
        break;
      }
      owed := owed - buys[i].numShares;
      if owed == 0 {
        CountsOf(buys, counts);
        return Success(i + 1);
      }
      i := i + 1;
    }
    if i == |buys| {
      CountsOf(buys, counts);
      return Failure("Can't deduct any more shares.");
    }
    var buy := buys[i];
    ghost var after := counts[i := buy.numShares - owed];
    assert target == Some(Lots(after, i));
    buy.numShares := buy.numShares - owed;
    forall j | 0 <= j < |buys| && j != i
      ensures buys[j].numShares == counts[j]
    {
      DistinctAt(buys, j, i);
    }
    CountsExcept(buys, i, counts);
    return Success(i);
  }

  lemma CountsOf(s: seq<Action>, counts: seq<int>)
    requires |s| == |counts| && forall i :: 0 <= i < |s| ==> s[i].numShares == counts[i]
    ensures Counts(s) == counts
  {
  }

  /** The count vector when every lot but the `k`-th still holds its count from `counts`. */
  lemma CountsExcept(s: seq<Action>, k: nat, counts: seq<int>)
    requires k < |s| == |counts|
    requires forall j :: 0 <= j < |s| && j != k ==> s[j].numShares == counts[j]
    ensures Counts(s) == counts[k := s[k].numShares]
  {
  }

  predicate BuyOnly(actions: seq<Action>)
  {
    forall i :: 0 <= i < |actions| ==> actions[i].kind == Buy
  }

  /** What the lots cost in `currency`, each converted at the rate of the day it was bought. */
  function Cost(s: seq<Action>, currency: string, fx: Rate): real
    reads s
  {
    if s == [] then 0.0
    else
      var last := s[|s| - 1];
      Cost(s[..|s| - 1], currency, fx) + last.numShares as real * last.sharePrice * fx(currency, last.date)
  }

  /** What the lots cost in the prices they were bought at, with no conversion. */
  function Spent(s: seq<Action>): real
    reads s
  {
    if s == [] then 0.0 else Spent(s[..|s| - 1]) + s[|s| - 1].numShares as real * s[|s| - 1].sharePrice
  }

  lemma {:induction false} SharesSnoc(s: seq<Action>, x: Action, k: ActionKind)
    ensures Shares(s + [x], k) == Shares(s, k) + (if x.kind == k then x.numShares else 0)
  {
    if s != [] {
      assert (s + [x])[1..] == s[1..] + [x];
      SharesSnoc(s[1..], x, k);
    } else {
      assert [x][1..] == [];
    }
  }

  lemma CostSnoc(s: seq<Action>, x: Action, currency: string, fx: Rate)
    ensures Cost(s + [x], currency, fx) == Cost(s, currency, fx) + x.numShares as real * x.sharePrice * fx(currency, x.date)
  {
    assert (s + [x])[..|s|] == s;
  }

  /** One row of the price history that the TEFAS crawler returns for a fund. */
  datatype PricePoint = PricePoint(price: real, date: Date, title: string)

  datatype Profits = Profits(
    key: string,
    title: string,
    initialDate: Date,
    totalShares: int,
    totalWorth: real,
    plToday: real,
    plWeek: real,
    plAllTime: real)

  /** What `shares` shares are worth in `currency` at the price and on the day of `point`. */
  function Worth(shares: int, point: PricePoint, currency: string, fx: Rate): real
  {
    shares as real * point.price * fx(currency, point.date)
  }

  class Fund {
    const key: string
    const actions: seq<Action>

    constructor (key: string, actions: seq<Action>)
      ensures this.key == key && this.actions == actions
    {
      this.key := key;
      this.actions := actions;
    }

    /**
     * `share_info`: the number of shares the fund holds and what they cost in
     * `currency`, each lot converted at the rate of its purchase date. The
     * fund must hold BUY lots only (the source asserts it).
     */
    method ShareInfo(currency: string, fx: Rate) returns (totalShares: int, totalSpent: real)
      requires BuyOnly(actions)
      ensures totalShares == Shares(actions, Buy)
      ensures totalSpent == Cost(actions, currency, fx)
    {
      totalShares, totalSpent := 0, 0.0;
      for i := 0 to |actions|
        invariant totalShares == Shares(actions[..i], Buy)
        invariant totalSpent == Cost(actions[..i], currency, fx)
      {
        var action := actions[i];
        assert actions[..i + 1] == actions[..i] + [action];
        SharesSnoc(actions[..i], action, Buy);
        CostSnoc(actions[..i], action, currency, fx);
        totalShares := totalShares + action.numShares;
        totalSpent := totalSpent + action.numShares as real * action.sharePrice * fx(currency, action.date);
      }
      assert actions[..|actions|] == actions;
    }

    /**
     * The P/L arithmetic of `calculate_profits`. `history` stands for the
     * crawler's price table of the last eight days, newest row first: the
     * current worth uses row 0, the daily P/L row 1 and the weekly P/L the
     * last row. A table with fewer than two rows is the lookup error the
     * source raises.
     */
    method CalculateProfits(history: seq<PricePoint>, currency: string, fx: Rate) returns (r: Result<Profits, string>)
      requires |actions| >= 1 && BuyOnly(actions)
      ensures r.Success? <==> |history| >= 2
      ensures r.Success? ==>
        var p := r.value;
        p.key == key && p.title == history[0].title && p.initialDate == actions[0].date &&
        p.totalShares == Shares(actions, Buy) &&
        p.totalWorth == Worth(p.totalShares, history[0], currency, fx) &&
        p.plToday == p.totalWorth - Worth(p.totalShares, history[1], currency, fx) &&
        p.plWeek == p.totalWorth - Worth(p.totalShares, history[|history| - 1], currency, fx) &&
        p.plAllTime == p.totalWorth - Cost(actions, currency, fx)
    {
      var initialDate := actions[0].date;
      var totalShares, totalSpent := ShareInfo(currency, fx);
      if |history| < 2 {
        return Failure("price history too short");
      }
      var current := Worth(totalShares, history[0], currency, fx);
      var daily := Worth(totalShares, history[1], currency, fx);
      var weekly := Worth(totalShares, history[|history| - 1], currency, fx);
      return Success(Profits(key, history[0].title, initialDate, totalShares,
        current, current - daily, current - weekly, current - totalSpent));
    }

    /**
     * `deduct_sales`: nets the SELLs against the BUYs in FIFO order and
     * returns a new fund holding the surviving BUY lots. The lot objects are
     * the caller's: a shrunk lot is shrunk in the input fund too, and on
     * failure the lots keep what earlier SELLs did to them.
     */
    method DeductSales() returns (r: Result<Fund, string>)
      requires Distinct(actions)
      modifies actions
      ensures match old(Reconciled(actions))
        case Netted(l) =>
          r.Success? && fresh(r.value) && r.value.key == key &&
          r.value.actions == Buys(actions)[l.front..] && Counts(Buys(actions)) == l.counts
        case Oversold(c) => r.Failure? && Counts(Buys(actions)) == c
      ensures Counts(Sells(actions)) == old(Counts(Sells(actions)))
    {
      var survivors := NetActions(actions);
      if survivors.Failure? {
        return Failure(survivors.error);
      }
      ghost var buys, sells := Buys(actions), Sells(actions);
      ghost var counts, sellCounts := Counts(buys), Counts(sells);
      var fund := new Fund(key, survivors.value);
      CountsOf(buys, counts);
      CountsOf(sells, sellCounts);
      r := Success(fund);
    }
  }

  method NetActions(actions: seq<Action>) returns (r: Result<seq<Action>, string>)
    requires Distinct(actions)
    modifies actions
    ensures match old(Reconciled(actions))
      case Netted(l) => r.Success? && r.value == Buys(actions)[l.front..] && Counts(Buys(actions)) == l.counts
      case Oversold(c) => r.Failure? && Counts(Buys(actions)) == c
    ensures Counts(Sells(actions)) == old(Counts(Sells(actions)))
  {
    ghost var outcome := Reconciled(actions);
    ghost var buyCounts := Counts(Buys(actions));
    ghost var sellCounts := Counts(Sells(actions));
    assert outcome == Net(Lots(buyCounts, 0), sellCounts);
    var sorted := SortByDate(actions);
    var buys, sells := Partition(sorted);
    DistinctSorted(actions);
    DistinctOfKind(sorted, Buy);
    SplitMembers(actions);
    assert buys == Buys(actions) && sells == Sells(actions);
    assert Counts(buys) == buyCounts && Counts(sells) == sellCounts;
    var netted := NetSells(buys, sells);
    CountsOf(sells, sellCounts);
    if netted.Failure? {
      return Failure(netted.error);
    }
    return Success(buys[netted.value..]);
  }

  /**
   * The loop of `deduct_sales` over the SELL list: each SELL's shares are
   * deducted from the working BUY list, and the first SELL that cannot be
   * covered aborts with the error. On success, the result is where the
   * surviving lots start.
   */
  method NetSells(buys: seq<Action>, sells: seq<Action>) returns (r: Result<nat, string>)
    requires Distinct(buys)
    requires forall i :: 0 <= i < |buys| ==> buys[i].kind == Buy
    requires forall i :: 0 <= i < |sells| ==> sells[i].kind == Sell
    modifies buys
    ensures match Net(Lots(old(Counts(buys)), 0), old(Counts(sells)))
      case Netted(l) => r.Success? && r.value == l.front && Counts(buys) == l.counts
      case Oversold(c) => r.Failure? && Counts(buys) == c
    ensures forall i :: 0 <= i < |sells| ==> sells[i].numShares == old(sells[i].numShares)
  {
    ghost var sellCounts := Counts(sells);
    ghost var target := Net(Lots(Counts(buys), 0), sellCounts);
    var front := 0;
    ghost var lots := Lots(Counts(buys), 0);
    assert sellCounts[0..] == sellCounts;
    assert forall i :: 0 <= i < |sells| ==> sells[i] !in buys;
    for j := 0 to |sells|
      invariant lots.Valid() && lots.front == front && Counts(buys) == lots.counts
      invariant Net(lots, sellCounts[j..]) == target
    {
      NetUnfold(lots, sellCounts, j);
      var deducted := DeductShares(buys, front, sells[j].numShares);
      if deducted.Failure? {
        return Failure(deducted.error);
      }
      lots := Deduct(lots, sellCounts[j]).value;
      front := deducted.value;
    }
    return Success(front);
  }

  lemma {:induction false} DistinctSorted(actions: seq<Action>)
    requires Distinct(actions)
    ensures Distinct(SortByDate(actions))
  {
    if actions != [] {
      DistinctSorted(actions[1..]);
      SortByDateMembers(actions[1..]);
      InsertDistinct(actions[0], SortByDate(actions[1..]));
    }
  }

  lemma {:induction false} InsertDistinct(x: Action, s: seq<Action>)
    requires Distinct(s) && x !in s
    ensures Distinct(Sorting.Insert(x, s, DateOf))
  {
    var r := Sorting.Insert(x, s, DateOf);
    if s != [] && DateOf(x) > DateOf(s[0]) {
      InsertDistinct(x, s[1..]);
      Sorting.InsertPermutes(x, s[1..], DateOf);
      assert s[0] !in multiset(Sorting.Insert(x, s[1..], DateOf));
      assert r == [s[0]] + Sorting.Insert(x, s[1..], DateOf);
      assert r[1..] == Sorting.Insert(x, s[1..], DateOf);
    } else {
      assert r == [x] + s;
      assert r[1..] == s;
    }
  }

  lemma {:induction false} DistinctOfKind(s: seq<Action>, k: ActionKind)
    requires Distinct(s)
    ensures Distinct(OfKind(s, k))
  {
    if s != [] {
      DistinctOfKind(s[1..], k);
      OfKindMembers(s[1..], k);
      if s[0].kind == k {
        assert s[0] !in OfKind(s[1..], k);
        assert OfKind(s, k)[1..] == OfKind(s[1..], k);
      } else {
        assert OfKind(s, k) == OfKind(s[1..], k);
      }
    }
  }

  /** A fund after its sales are deducted: its key and the BUY lots it still holds. */
  datatype Position = Position(key: string, lots: seq<Action>)

  /**
   * The share counts the netting of a fund starts from: its date-sorted BUY
   * lots and its SELLs. `Reconciled` reads these counts off the heap; a
   * `Ledger` holds them as a plain value, so that `DropSoldFunds` can record
   * every fund's counts before its loop and settle each fund against that
   * record while earlier funds are being changed. `SettleWith` nets a ledger
   * exactly as `Reconciled` does, and `FundsLemmas.SettleIsReconciled` proves
   * the two agree on a fund's current state.
   */
  datatype Ledger = Ledger(buys: seq<int>, sells: seq<int>)

  /** The ledger of `f` as it is now. */
  function LedgerOf(f: Fund): (r: Ledger)
    reads f.actions
    ensures |r.buys| == |Buys(f.actions)|
  {
    SplitMembers(f.actions);
    Ledger(Counts(Buys(f.actions)), Counts(Sells(f.actions)))
  }

  /** What `deduct_sales` leaves of `f` when its lots and SELLs hold the counts of `ledger`, or None where it raises. */
  function SettleWith(f: Fund, ledger: Ledger): Option<Position>
    requires |ledger.buys| == |Buys(f.actions)|
  {
    match Net(Lots(ledger.buys, 0), ledger.sells)
    case Netted(l) => Some(Position(f.key, Buys(f.actions)[l.front..]))
    case Oversold(_) => None
  }

  /** What `deduct_sales` leaves of `f`, or None where it raises. */
  function Settle(f: Fund): (r: Option<Position>)
    reads f.actions
    ensures r.Some? ==> r.value.key == f.key && BuyOnly(r.value.lots)
  {
    SettleWith(f, LedgerOf(f))
  }

  /** Every action object that some fund of `funds` holds. */
  function Footprint(funds: seq<Fund>): set<Action>
  {
    set i, a | 0 <= i < |funds| && a in funds[i].actions :: a
  }

  lemma FootprintCons(funds: seq<Fund>)
    requires funds != []
    ensures Footprint(funds) == (set a | a in funds[0].actions) + Footprint(funds[1..])
  {
    forall a | a in Footprint(funds[1..]) ensures a in Footprint(funds) {
      var i :| 0 <= i < |funds| - 1 && a in funds[1..][i].actions;
      assert funds[1..][i] == funds[i + 1];
    }
    forall a | a in Footprint(funds) ensures a in funds[0].actions || a in Footprint(funds[1..]) {
      var i :| 0 <= i < |funds| && a in funds[i].actions;
      if i > 0 {
        assert funds[1..][i - 1] == funds[i];
      }
    }
  }

  lemma InFootprint(funds: seq<Fund>, i: nat)
    requires i < |funds|
    ensures (set a | a in funds[i].actions) <= Footprint(funds)
  {
    forall a | a in funds[i].actions ensures a in Footprint(funds) { }
  }

  /** What `deduct_sales` leaves of each fund, in order. */
  function SettleAll(funds: seq<Fund>): (r: seq<Option<Position>>)
    reads Footprint(funds)
    ensures |r| == |funds|
  {
    if funds == [] then []
    else
      FootprintCons(funds);
      [Settle(funds[0])] + SettleAll(funds[1..])
  }

  lemma {:induction false} SettleAllAt(funds: seq<Fund>, j: nat)
    requires j < |funds|
    ensures SettleAll(funds)[j] == Settle(funds[j])
  {
    if j > 0 {
      SettleAllAt(funds[1..], j - 1);
    }
  }

  /** The ledger of each fund, in order. */
  function LedgersOf(funds: seq<Fund>): (r: seq<Ledger>)
    reads Footprint(funds)
    ensures |r| == |funds|
    ensures forall j :: 0 <= j < |funds| ==> r[j] == LedgerOf(funds[j])
  {
    if funds == [] then []
    else
      FootprintCons(funds);
      [LedgerOf(funds[0])] + LedgersOf(funds[1..])
  }

  /** Each fund settles as its ledger says. */
  lemma SettleAllLedgers(funds: seq<Fund>)
    ensures forall j :: 0 <= j < |funds| ==> SettleAll(funds)[j] == SettleWith(funds[j], LedgersOf(funds)[j])
  {
    forall j | 0 <= j < |funds| ensures SettleAll(funds)[j] == SettleWith(funds[j], LedgersOf(funds)[j]) {
      SettleAllAt(funds, j);
    }
  }

  /**
   * `drop_sold_funds` on settled positions: None as soon as one fund is
   * oversold, otherwise the positions that still hold lots, in order.
   */
  function Kept(ps: seq<Option<Position>>): (r: Option<seq<Position>>)
    ensures r.Some? ==> |r.value| <= |ps| && forall j :: 0 <= j < |r.value| ==> r.value[j].lots != []
  {
    if ps == [] then Some([])
    else
      match Kept(ps[..|ps| - 1])
      case None => None
      case Some(kept) =>
        match ps[|ps| - 1]
        case None => None
        case Some(p) => Some(if p.lots == [] then kept else kept + [p])
  }

  lemma {:induction false} KeptFailsOnward(ps: seq<Option<Position>>, n: nat)
    requires n <= |ps| && Kept(ps[..n]).None?
    ensures Kept(ps).None?
    decreases |ps|
  {
    if n < |ps| {
      assert ps[..|ps| - 1][..n] == ps[..n];
      KeptFailsOnward(ps[..|ps| - 1], n);
    } else {
      assert ps[..n] == ps;
    }
  }

  lemma KeptNext(ps: seq<Option<Position>>, i: nat, kept: seq<Position>)
    requires i < |ps| && Kept(ps[..i]) == Some(kept) && ps[i].Some?
    ensures Kept(ps[..i + 1]) == Some(if ps[i].value.lots == [] then kept else kept + [ps[i].value])
  {
    assert ps[..i + 1][..i] == ps[..i];
  }

  /** No action object belongs to two of the funds. */
  predicate Separate(funds: seq<Fund>)
  {
    funds == [] || ((set a | a in funds[0].actions) !! Footprint(funds[1..]) && Separate(funds[1..]))
  }

  /** The key and action list of each fund. */
  function Snapshot(funds: seq<Fund>): (r: seq<Position>)
    ensures |r| == |funds|
  {
    if funds == [] then []
    else
      var last := funds[|funds| - 1];
      Snapshot(funds[..|funds| - 1]) + [Position(last.key, last.actions)]
  }

  /**
   * One pass of the loop in `drop_sold_funds`: settle the first of `funds`
   * and append the new fund to `kept` when it still holds lots. `ledger` is
   * the first fund's ledger, `expected` what it settles to and `positions`
   * what `kept` holds before the pass; the other funds' lots are left as
   * they were.
   */
  method SettleNext(funds: seq<Fund>, kept: seq<Fund>, ghost ledger: Ledger, ghost expected: Option<Position>, ghost positions: seq<Position>)
      returns (r: Result<seq<Fund>, string>)
    requires |funds| > 0 && Distinct(funds[0].actions) && Separate(funds)
    requires LedgerOf(funds[0]) == ledger && SettleWith(funds[0], ledger) == expected
    requires Snapshot(kept) == positions
    modifies funds[0].actions
    ensures match expected
      case None => r.Failure?
      case Some(p) => r.Success? && Snapshot(r.value) == if p.lots == [] then positions else positions + [p]
    ensures unchanged(Footprint(funds[1..]))
  {
    var settled := funds[0].DeductSales();
    if settled.Failure? {
      return Failure(settled.error);
    }
    var fund := settled.value;
    if fund.actions != [] {
      r := Success(kept + [fund]);
      assert (kept + [fund])[..|kept|] == kept;
    } else {
      r := Success(kept);
    }
  }

  /**
   * `drop_sold_funds`, with the generator drained into a list: deduct the
   * sales of each fund in turn and keep the funds that still hold shares.
   * Each fund's actions must be distinct objects, and no action object may
   * belong to two funds (as `Teb.process` builds them).
   */
  method DropSoldFunds(funds: seq<Fund>) returns (r: Result<seq<Fund>, string>)
    requires forall i :: 0 <= i < |funds| ==> Distinct(funds[i].actions)
    requires Separate(funds)
    modifies Footprint(funds)
    ensures match Kept(old(SettleAll(funds)))
      case None => r.Failure?
      case Some(ps) => r.Success? && Snapshot(r.value) == ps
  {
    ghost var pending := SettleAll(funds);
    ghost var ledgers := LedgersOf(funds);
    SettleAllLedgers(funds);
    ghost var positions: seq<Position> := [];
    var kept: seq<Fund> := [];
    for i := 0 to |funds|
      invariant Kept(pending[..i]) == Some(positions)
      invariant Snapshot(kept) == positions
      invariant unchanged(Footprint(funds[i..]))
      invariant Separate(funds[i..])
    {
      assert funds[i..][1..] == funds[i + 1..];
      InFootprint(funds, i);
      InFootprint(funds[i..], 0);
      FootprintCons(funds[i..]);
      assert LedgerOf(funds[i]) == old(LedgerOf(funds[i])) == ledgers[i];
      assert Separate(funds[i..][1..]);
      var settled := SettleNext(funds[i..], kept, ledgers[i], pending[i], positions);
      if settled.Failure? {
        KeptFailsOnward(pending, i + 1);
        return Failure(settled.error);
      }
      KeptNext(pending, i, positions);
      kept := settled.value;
      positions := if pending[i].value.lots == [] then positions else positions + [pending[i].value];
    }
    assert pending[..|funds|] == pending;
    return Success(kept);
  }

}
