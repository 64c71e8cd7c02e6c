/**
 * What `Fund.deduct_sales` promises about a fund, stated over the reconciliation
 * outcome `Reconciled(actions)` that the methods of module Funds are proved to
 * compute.
 */
module FundsLemmas {
  import opened Wrappers
  import opened Fifo
  import opened FifoLemmas
  import opened Funds
  import Sorting

  lemma {:induction false} SharesOfKind(s: seq<Action>, k: ActionKind)
    ensures Sum(Counts(OfKind(s, k))) == Shares(s, k)
  {
    if s != [] {
      SharesOfKind(s[1..], k);
      var rest := OfKind(s[1..], k);
      if s[0].kind == k {
        assert OfKind(s, k) == [s[0]] + rest;
        assert ([s[0]] + rest)[1..] == rest;
        assert Counts([s[0]] + rest) == [s[0].numShares] + Counts(rest);
        assert ([s[0].numShares] + Counts(rest))[1..] == Counts(rest);
      } else {
        assert OfKind(s, k) == rest;
      }
    }
  }

  lemma {:induction false} SharesInsert(x: Action, s: seq<Action>, k: ActionKind)
    ensures Shares(Sorting.Insert(x, s, DateOf), k) == (if x.kind == k then x.numShares else 0) + Shares(s, k)
  {
    var r := Sorting.Insert(x, s, DateOf);
    if s != [] && DateOf(x) > DateOf(s[0]) {
      SharesInsert(x, s[1..], k);
      assert r == [s[0]] + Sorting.Insert(x, s[1..], DateOf);
      assert r[1..] == Sorting.Insert(x, s[1..], DateOf);
    } else {
      assert r == [x] + s;
      assert r[1..] == s;
    }
  }

  /** Sorting by date moves actions around but keeps the shares of each kind. */
  lemma {:induction false} SharesSorted(s: seq<Action>, k: ActionKind)
    ensures Shares(SortByDate(s), k) == Shares(s, k)
  {
    if s != [] {
      SharesSorted(s[1..], k);
      SharesInsert(s[0], SortByDate(s[1..]), k);
    }
  }

  /** The BUY (SELL) list holds all the BUY (SELL) shares of the fund. */
  lemma SplitShares(actions: seq<Action>)
    ensures Sum(Counts(Buys(actions))) == Shares(actions, Buy)
    ensures Sum(Counts(Sells(actions))) == Shares(actions, Sell)
  {
    SharesOfKind(SortByDate(actions), Buy);
    SharesOfKind(SortByDate(actions), Sell);
    SharesSorted(actions, Buy);
    SharesSorted(actions, Sell);
  }

  /**
   * Share conservation: when no SELL fails, the lots left in the working BUY
   * list hold the bought shares minus the sold shares.
   */
  lemma Conservation(actions: seq<Action>)
    ensures match Reconciled(actions)
      case Netted(l) => Sum(l.Open()) == Shares(actions, Buy) - Shares(actions, Sell)
      case Oversold(_) => true
  {
    SplitShares(actions);
    if Reconciled(actions).Netted? {
      NetConserves(Lots(Counts(Buys(actions)), 0), Counts(Sells(actions)));
    }
  }

  predicate PositiveShares(actions: seq<Action>)
    reads actions
  {
    forall i :: 0 <= i < |actions| ==> actions[i].numShares > 0
  }

  lemma PositiveCounts(actions: seq<Action>)
    requires PositiveShares(actions)
    ensures AllPositive(Counts(Buys(actions))) && AllPositive(Counts(Sells(actions)))
  {
    SplitMembers(actions);
    forall i | 0 <= i < |Buys(actions)|
      ensures Counts(Buys(actions))[i] > 0
    {
      assert Buys(actions)[i] in Buys(actions);
      var j :| 0 <= j < |actions| && actions[j] == Buys(actions)[i];
    }
    forall i | 0 <= i < |Sells(actions)|
      ensures Counts(Sells(actions))[i] > 0
    {
      assert Sells(actions)[i] in Sells(actions);
      var j :| 0 <= j < |actions| && actions[j] == Sells(actions)[i];
    }
  }

  /**
   * With positive share counts, `deduct_sales` raises exactly when the fund
   * sold more shares than it bought, whatever the dates.
   */
  lemma OversoldIff(actions: seq<Action>)
    requires PositiveShares(actions)
    ensures Reconciled(actions).Oversold? <==> Shares(actions, Sell) > Shares(actions, Buy)
  {
    PositiveCounts(actions);
    SplitShares(actions);
    NetFailsIffOversold(Lots(Counts(Buys(actions)), 0), Counts(Sells(actions)));
  }

  /** With positive share counts, every surviving lot holds at least one share. */
  lemma SurvivorsPositive(actions: seq<Action>)
    requires PositiveShares(actions)
    ensures match Reconciled(actions)
      case Netted(l) => AllPositive(l.Open())
      case Oversold(_) => true
  {
    PositiveCounts(actions);
    if Reconciled(actions).Netted? {
      NetKeepsPositive(Lots(Counts(Buys(actions)), 0), Counts(Sells(actions)));
    }
  }

  lemma {:induction false} OfKindSorted(s: seq<Action>, k: ActionKind)
    requires DateSorted(s)
    ensures DateSorted(OfKind(s, k))
  {
    if s != [] {
      assert DateSorted(s[1..]);
      OfKindSorted(s[1..], k);
      OfKindMembers(s[1..], k);
      var rest := OfKind(s[1..], k);
      if s[0].kind == k {
        forall i | 0 <= i < |rest|
          ensures s[0].date <= rest[i].date
        {
          assert rest[i] in rest;
          assert rest[i] in s[1..];
          var j :| 0 <= j < |s[1..]| && s[1..][j] == rest[i];
          assert s[j + 1] == rest[i];
          assert DateOf(s[0]) <= DateOf(s[j + 1]);
        }
        assert OfKind(s, k) == [s[0]] + rest;
      } else {
        assert OfKind(s, k) == rest;
      }
    }
  }

  /** The BUY list is in date order, so every suffix of it (the surviving lots) is too. */
  lemma BuysSorted(actions: seq<Action>)
    ensures DateSorted(Buys(actions))
    ensures forall j :: 0 <= j <= |Buys(actions)| ==> DateSorted(Buys(actions)[j..])
  {
    Sorting.SortBySorted(actions, DateOf);
    OfKindSorted(SortByDate(actions), Buy);
  }

  /**
   * FIFO shape, on the fund's own lots: the SELLs leave the lots after the
   * first survivor exactly as they were bought, and (with non-negative SELLs)
   * the first survivor can only have shrunk.
   */
  lemma FifoShape(actions: seq<Action>)
    ensures match Reconciled(actions)
      case Netted(l) =>
        (forall j :: l.front < j < |l.counts| ==> l.counts[j] == Buys(actions)[j].numShares) &&
        (AllNonNegative(Counts(Sells(actions))) && l.front < |l.counts| ==>
          l.counts[l.front] <= Buys(actions)[l.front].numShares)
      case Oversold(_) => true
  {
    if Reconciled(actions).Netted? {
      NetShape(Lots(Counts(Buys(actions)), 0), Counts(Sells(actions)));
    }
  }

  lemma {:induction false} OfKindAll(s: seq<Action>, k: ActionKind)
    requires forall i :: 0 <= i < |s| ==> s[i].kind == k
    ensures OfKind(s, k) == s
  {
    if s != [] {
      OfKindAll(s[1..], k);
    }
  }

  lemma {:induction false} OfKindNone(s: seq<Action>, k: ActionKind)
    requires forall i :: 0 <= i < |s| ==> s[i].kind != k
    ensures OfKind(s, k) == []
  {
    if s != [] {
      OfKindNone(s[1..], k);
    }
  }

  /**
   * On a BUY-only fund `deduct_sales` nets nothing: every lot survives,
   * date-sorted, with its count unchanged, and reconciling the survivors again
   * gives the same lots back.
   */
  lemma BuyOnlyIdempotent(actions: seq<Action>)
    requires BuyOnly(actions)
    ensures Sells(actions) == []
    ensures Buys(actions) == SortByDate(actions)
    ensures Reconciled(actions) == Netted(Lots(Counts(SortByDate(actions)), 0))
    ensures Buys(Buys(actions)) == Buys(actions)
  {
    var sorted := SortByDate(actions);
    SortByDateMembers(actions);
    forall i | 0 <= i < |sorted|
      ensures sorted[i].kind == Buy
    {
      assert sorted[i] in sorted;
      var j :| 0 <= j < |actions| && actions[j] == sorted[i];
    }
    OfKindAll(sorted, Buy);
    OfKindNone(sorted, Sell);
    Sorting.SortByIdempotent(actions, DateOf);
    OfKindAll(SortByDate(sorted), Buy);
  }

  /** With no negative shares, prices or rates, the cost is not negative. */
  lemma {:induction false} CostNonNegative(s: seq<Action>, currency: string, fx: Rate)
    requires forall i :: 0 <= i < |s| ==> s[i].numShares >= 0 && s[i].sharePrice >= 0.0 && fx(currency, s[i].date) >= 0.0
    ensures Cost(s, currency, fx) >= 0.0
  {
    if s != [] {
      var last := s[|s| - 1];
      CostNonNegative(s[..|s| - 1], currency, fx);
      var bought := last.numShares as real * last.sharePrice;
      assert bought >= 0.0;
      assert bought * fx(currency, last.date) >= 0.0;
    }
  }

  /**
   * `share_info` in a currency whose rate is 1.0 on every purchase date (the
   * base currency, where the fallback `get_rate` answers 1.0): the cost is the
   * plain sum of shares times price.
   */
  lemma {:induction false} CostAtUnitRate(s: seq<Action>, currency: string, fx: Rate)
    requires forall i :: 0 <= i < |s| ==> fx(currency, s[i].date) == 1.0
    ensures Cost(s, currency, fx) == Spent(s)
  {
    if s != [] {
      CostAtUnitRate(s[..|s| - 1], currency, fx);
    }
  }

  /** Settling a fund is reconciling its actions and keeping the surviving suffix of its BUY list. */
  lemma SettleIsReconciled(f: Fund)
    ensures Settle(f) == match Reconciled(f.actions)
      case Netted(l) => Some(Position(f.key, Buys(f.actions)[l.front..]))
      case Oversold(_) => None
  {
  }

  /** With positive share counts, a fund fails to settle exactly when it sold more shares than it bought. */
  lemma SettleFailsIff(f: Fund)
    requires PositiveShares(f.actions)
    ensures Settle(f).None? <==> Shares(f.actions, Sell) > Shares(f.actions, Buy)
  {
    SettleIsReconciled(f);
    OversoldIff(f.actions);
  }

  /**
   * What a settled fund keeps: date-sorted BUY lots under the fund's key, and
   * (with positive share counts) none at all exactly when every bought share
   * was sold.
   */
  lemma SettleShape(f: Fund)
    requires PositiveShares(f.actions)
    ensures match Settle(f)
      case Some(p) =>
        p.key == f.key && DateSorted(p.lots) && BuyOnly(p.lots) &&
        (p.lots == [] <==> Shares(f.actions, Sell) == Shares(f.actions, Buy))
      case None => true
  {
    SettleIsReconciled(f);
    BuysSorted(f.actions);
    Conservation(f.actions);
    SurvivorsPositive(f.actions);
    if Reconciled(f.actions).Netted? {
      var l := Reconciled(f.actions).lots;
      SumPositive(l.Open());
    }
  }

  /** The settled positions that still hold lots, in order; funds that failed are skipped. */
  function Holding(ps: seq<Option<Position>>): (r: seq<Position>)
    ensures |r| <= |ps|
    ensures forall j :: 0 <= j < |r| ==> r[j].lots != []
  {
    if ps == [] then []
    else (if ps[0].Some? && ps[0].value.lots != [] then [ps[0].value] else []) + Holding(ps[1..])
  }

  lemma {:induction false} HoldingSnoc(ps: seq<Option<Position>>, x: Option<Position>)
    ensures Holding(ps + [x]) == Holding(ps) + (if x.Some? && x.value.lots != [] then [x.value] else [])
  {
    if ps != [] {
      assert (ps + [x])[1..] == ps[1..] + [x];
      HoldingSnoc(ps[1..], x);
    } else {
      assert [x][1..] == [];
    }
  }

  lemma {:induction false} HoldingMembers(ps: seq<Option<Position>>)
    ensures forall j :: 0 <= j < |Holding(ps)| ==> Some(Holding(ps)[j]) in ps
  {
    if ps != [] {
      HoldingMembers(ps[1..]);
      var head := if ps[0].Some? && ps[0].value.lots != [] then [ps[0].value] else [];
      forall j | 0 <= j < |Holding(ps)|
        ensures Some(Holding(ps)[j]) in ps
      {
        if j < |head| {
          assert Holding(ps)[j] == ps[0].value;
        } else {
          assert Holding(ps)[j] == Holding(ps[1..])[j - |head|];
          assert Some(Holding(ps)[j]) in ps[1..];
        }
      }
    }
  }

  /** The loop of `drop_sold_funds` over settled positions fails exactly when some fund fails to settle. */
  lemma {:induction false} KeptFails(ps: seq<Option<Position>>)
    ensures Kept(ps).None? <==> exists i :: 0 <= i < |ps| && ps[i].None?
  {
    if ps != [] {
      var init := ps[..|ps| - 1];
      KeptFails(init);
      if Kept(init).None? {
        var i :| 0 <= i < |init| && init[i].None?;
        assert ps[i] == init[i];
      } else {
        forall i | 0 <= i < |init| ensures ps[i].Some? {
          assert ps[i] == init[i];
        }
      }
    }
  }

  /**
   * The loop of `drop_sold_funds` over settled positions: it fails exactly
   * when some fund fails to settle, and otherwise keeps exactly the positions
   * that still hold lots, in input order.
   */
  lemma {:induction false} KeptIsHolding(ps: seq<Option<Position>>)
    ensures Kept(ps).None? <==> exists i :: 0 <= i < |ps| && ps[i].None?
    ensures Kept(ps).Some? ==> Kept(ps).value == Holding(ps)
  {
    KeptFails(ps);
    if ps != [] {
      var init := ps[..|ps| - 1];
      var last := ps[|ps| - 1];
      KeptIsHolding(init);
      if Kept(ps).Some? {
        assert ps == init + [last];
        HoldingSnoc(init, last);
      }
    }
  }

  /** Which funds fail to settle, as `SettleFailsIff` describes each one. */
  lemma SettledFails(funds: seq<Fund>)
    requires forall i :: 0 <= i < |funds| ==> PositiveShares(funds[i].actions)
    ensures forall i :: 0 <= i < |funds| ==>
      (SettleAll(funds)[i].None? <==> Shares(funds[i].actions, Sell) > Shares(funds[i].actions, Buy))
  {
    forall i | 0 <= i < |funds|
      ensures SettleAll(funds)[i].None? <==> Shares(funds[i].actions, Sell) > Shares(funds[i].actions, Buy)
    {
      SettleAllAt(funds, i);
      SettleFailsIff(funds[i]);
    }
  }

  /** What each settled fund holds, as `SettleShape` describes it. */
  lemma SettledLots(funds: seq<Fund>)
    requires forall i :: 0 <= i < |funds| ==> PositiveShares(funds[i].actions)
    ensures forall i :: 0 <= i < |funds| && SettleAll(funds)[i].Some? ==>
      DateSorted(SettleAll(funds)[i].value.lots) && BuyOnly(SettleAll(funds)[i].value.lots)
  {
    forall i | 0 <= i < |funds| && SettleAll(funds)[i].Some?
      ensures DateSorted(SettleAll(funds)[i].value.lots) && BuyOnly(SettleAll(funds)[i].value.lots)
    {
      SettleAllAt(funds, i);
      SettleShape(funds[i]);
    }
  }

  /**
   * When `drop_sold_funds` fails, over funds with positive share counts:
   * exactly when some fund sold more shares than it bought.
   */
  lemma DropSoldFundsFails(funds: seq<Fund>)
    requires forall i :: 0 <= i < |funds| ==> PositiveShares(funds[i].actions)
    ensures Kept(SettleAll(funds)).None? <==>
      exists i :: 0 <= i < |funds| && Shares(funds[i].actions, Sell) > Shares(funds[i].actions, Buy)
  {
    var all := SettleAll(funds);
    KeptFails(all);
    SettledFails(funds);
    if Kept(all).None? {
      var i :| 0 <= i < |all| && all[i].None?;
      assert Shares(funds[i].actions, Sell) > Shares(funds[i].actions, Buy);
    } else {
      forall i | 0 <= i < |funds|
        ensures Shares(funds[i].actions, Sell) <= Shares(funds[i].actions, Buy)
      {
        assert all[i].Some?;
      }
    }
  }

  /**
   * What `drop_sold_funds` keeps when it succeeds, over funds with positive
   * share counts: in input order, the settled funds that still hold lots, and
   * each of them holds date-sorted BUY lots only.
   */
  lemma DropSoldFundsKept(funds: seq<Fund>)
    requires forall i :: 0 <= i < |funds| ==> PositiveShares(funds[i].actions)
    ensures match Kept(SettleAll(funds))
      case Some(ps) =>
        ps == Holding(SettleAll(funds)) &&
        forall j :: 0 <= j < |ps| ==> ps[j].lots != [] && DateSorted(ps[j].lots) && BuyOnly(ps[j].lots)
      case None => true
  {
    var all := SettleAll(funds);
    KeptIsHolding(all);
    if Kept(all).Some? {
      var ps := Kept(all).value;
      HoldingMembers(all);
      SettledLots(funds);
      forall j | 0 <= j < |ps|
        ensures DateSorted(ps[j].lots) && BuyOnly(ps[j].lots)
      {
        var i :| 0 <= i < |all| && all[i] == Some(ps[j]);
      }
    }
  }

  /**
   * What `drop_sold_funds` promises, over funds with positive share counts: it
   * fails exactly when some fund sold more shares than it bought; otherwise it
   * keeps, in input order, the settled funds that still hold lots, and each
   * of them holds date-sorted BUY lots only.
   */
  lemma DropSoldFundsResult(funds: seq<Fund>)
    requires forall i :: 0 <= i < |funds| ==> PositiveShares(funds[i].actions)
    ensures Kept(SettleAll(funds)).None? <==>
      exists i :: 0 <= i < |funds| && Shares(funds[i].actions, Sell) > Shares(funds[i].actions, Buy)
    ensures match Kept(SettleAll(funds))
      case Some(ps) =>
        ps == Holding(SettleAll(funds)) &&
        forall j :: 0 <= j < |ps| ==> ps[j].lots != [] && DateSorted(ps[j].lots) && BuyOnly(ps[j].lots)
      case None => true
  {
    DropSoldFundsFails(funds);
    DropSoldFundsKept(funds);
  }

  /**
   * Order independence: `deduct_sales` sorts by date first, so when no two
   * actions share a date, any rearrangement of a fund's actions gives the
   * same BUY lots, the same SELLs and the same outcome.
   */
  lemma ReorderedReconciled(a: seq<Action>, b: seq<Action>)
    requires multiset(a) == multiset(b)
    requires forall i, j :: 0 <= i < j < |a| ==> a[i].date != a[j].date
    ensures SortByDate(a) == SortByDate(b)
    ensures Buys(a) == Buys(b) && Sells(a) == Sells(b)
    ensures Reconciled(a) == Reconciled(b)
  {
    assert Sorting.DistinctKeys(a, DateOf);
    Sorting.SortByReordered(a, b, DateOf);
  }
}
