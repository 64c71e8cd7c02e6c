/**
 * The FIFO netting rule of `Fund.deduct_sales`, stated over share counts.
 *
 * The BUY lots of a fund, in date order, are a vector of share counts; `front`
 * is the number of lots already removed from the front of the working list.
 * A removed lot keeps whatever count it had when it was removed, because the
 * source mutates the caller's lot objects in place and never touches a lot
 * again once it is gone.
 */
module Fifo {
  import opened Wrappers

  datatype Lots = Lots(counts: seq<int>, front: nat) {
    predicate Valid() { front <= |counts| }

    /** The share counts of the lots still in the working list. */
    function Open(): seq<int>
      requires Valid()
    {
      counts[front..]
    }
  }

  /** Outcome of applying every SELL: the final lots, or the counts left behind by a failed SELL. */
  datatype Outcome = Netted(lots: Lots) | Oversold(counts: seq<int>)

  function Sum(s: seq<int>): int
  {
    if s == [] then 0 else s[0] + Sum(s[1..])
  }

  predicate AllPositive(s: seq<int>)
  {
    forall i :: 0 <= i < |s| ==> s[i] > 0
  }

  predicate AllNonNegative(s: seq<int>)
  {
    forall i :: 0 <= i < |s| ==> s[i] >= 0
  }

  /**
   * One SELL of `owed` shares against the front of the working list
   * (`deduct_shares`). None is the "Can't deduct any more shares." error.
   */
  function Deduct(l: Lots, owed: int): (r: Option<Lots>)
    requires l.Valid()
    ensures r.Some? ==> r.value.Valid() && |r.value.counts| == |l.counts|
    ensures r.Some? ==> l.front <= r.value.front
    decreases |l.counts| - l.front
  {
    if l.front == |l.counts| then None
    else if l.counts[l.front] > owed then
      Some(Lots(l.counts[l.front := l.counts[l.front] - owed], l.front))
    else if owed - l.counts[l.front] == 0 then
      Some(Lots(l.counts, l.front + 1))
    else
      Deduct(Lots(l.counts, l.front + 1), owed - l.counts[l.front])
  }

  lemma DeductUnfold(l: Lots, owed: int)
    requires l.Valid() && l.front < |l.counts|
    ensures l.counts[l.front] > owed ==>
      Deduct(l, owed) == Some(Lots(l.counts[l.front := l.counts[l.front] - owed], l.front))
    ensures l.counts[l.front] <= owed && owed - l.counts[l.front] == 0 ==>
      Deduct(l, owed) == Some(Lots(l.counts, l.front + 1))
    ensures l.counts[l.front] <= owed && owed - l.counts[l.front] != 0 ==>
      Deduct(l, owed) == Deduct(Lots(l.counts, l.front + 1), owed - l.counts[l.front])
  {
  }

  lemma NetUnfold(l: Lots, sells: seq<int>, j: nat)
    requires l.Valid() && j < |sells|
    ensures Deduct(l, sells[j]).None? ==> Net(l, sells[j..]) == Oversold(l.counts)
    ensures Deduct(l, sells[j]).Some? ==> Net(l, sells[j..]) == Net(Deduct(l, sells[j]).value, sells[j + 1..])
  {
    assert sells[j..][1..] == sells[j + 1..];
  }

  /** Every SELL, in date order, against the BUY lots (the loop over `sells`). */
  function Net(l: Lots, sells: seq<int>): (r: Outcome)
    requires l.Valid()
    ensures r.Netted? ==> r.lots.Valid() && |r.lots.counts| == |l.counts| && l.front <= r.lots.front
    ensures r.Oversold? ==> |r.counts| == |l.counts|
    decreases |sells|
  {
    if sells == [] then Netted(l)
    else match Deduct(l, sells[0])
      case None => Oversold(l.counts)
      case Some(l') => Net(l', sells[1..])
  }
}

module FifoLemmas {
  import opened Wrappers
  import opened Fifo

  lemma {:induction false} SumNonNegative(s: seq<int>)
    requires AllNonNegative(s)
    ensures Sum(s) >= 0
  {
    if s != [] {
      SumNonNegative(s[1..]);
    }
  }

  /** With positive lots, the open shares are zero exactly when no lot is left. */
  lemma {:induction false} SumPositive(s: seq<int>)
    requires AllPositive(s)
    ensures Sum(s) >= 0
    ensures Sum(s) == 0 <==> s == []
  {
    if s != [] {
      SumPositive(s[1..]);
    }
  }

  lemma OpenStep(l: Lots)
    requires l.Valid() && l.front < |l.counts|
    ensures Lots(l.counts, l.front + 1).Valid()
    ensures l.Open() == [l.counts[l.front]] + Lots(l.counts, l.front + 1).Open()
  {
  }

  /** One SELL removes exactly `owed` shares from the open lots. */
  lemma {:induction false} DeductConserves(l: Lots, owed: int)
    requires l.Valid() && Deduct(l, owed).Some?
    ensures Sum(Deduct(l, owed).value.Open()) == Sum(l.Open()) - owed
    decreases |l.counts| - l.front
  {
    var next := Lots(l.counts, l.front + 1);
    OpenStep(l);
    if l.counts[l.front] > owed {
      var l' := Deduct(l, owed).value;
      assert l'.Open() == [l.counts[l.front] - owed] + next.Open();
    } else if owed - l.counts[l.front] != 0 {
      DeductConserves(next, owed - l.counts[l.front]);
    }
  }

  /**
   * Share conservation: when no SELL fails, the open shares are the BUY shares
   * minus the SELL shares.
   */
  lemma {:induction false} NetConserves(l: Lots, sells: seq<int>)
    requires l.Valid() && Net(l, sells).Netted?
    ensures Sum(Net(l, sells).lots.Open()) == Sum(l.Open()) - Sum(sells)
    decreases |sells|
  {
    if sells != [] {
      var l' := Deduct(l, sells[0]).value;
      DeductConserves(l, sells[0]);
      NetConserves(l', sells[1..]);
    }
  }

  /** A lot is only shrunk when it is strictly larger than the amount owed, so it stays positive. */
  lemma {:induction false} DeductKeepsPositive(l: Lots, owed: int)
    requires l.Valid() && AllPositive(l.Open()) && Deduct(l, owed).Some?
    ensures AllPositive(Deduct(l, owed).value.Open())
    decreases |l.counts| - l.front
  {
    var next := Lots(l.counts, l.front + 1);
    OpenStep(l);
    if l.counts[l.front] > owed {
      var l' := Deduct(l, owed).value;
      assert l'.Open() == [l.counts[l.front] - owed] + next.Open();
    } else if owed - l.counts[l.front] != 0 {
      DeductKeepsPositive(next, owed - l.counts[l.front]);
    }
  }

  /** With positive BUY lots, every lot that survives the netting is positive. */
  lemma {:induction false} NetKeepsPositive(l: Lots, sells: seq<int>)
    requires l.Valid() && AllPositive(l.Open()) && Net(l, sells).Netted?
    ensures AllPositive(Net(l, sells).lots.Open())
    decreases |sells|
  {
    if sells != [] {
      DeductKeepsPositive(l, sells[0]);
      NetKeepsPositive(Deduct(l, sells[0]).value, sells[1..]);
    }
  }

  /** One SELL changes the count of at most one lot: the one it stops at. */
  lemma {:induction false} DeductTouchesOnlyFront(l: Lots, owed: int)
    requires l.Valid() && Deduct(l, owed).Some?
    ensures var l' := Deduct(l, owed).value;
      forall j :: 0 <= j < |l.counts| && j != l'.front ==> l'.counts[j] == l.counts[j]
    decreases |l.counts| - l.front
  {
    if l.counts[l.front] <= owed && owed - l.counts[l.front] != 0 {
      DeductTouchesOnlyFront(Lots(l.counts, l.front + 1), owed - l.counts[l.front]);
    }
  }

  /** A SELL of a non-negative amount never grows the lot it stops at. */
  lemma {:induction false} DeductShrinksFront(l: Lots, owed: int)
    requires l.Valid() && owed >= 0 && Deduct(l, owed).Some?
    ensures var l' := Deduct(l, owed).value;
      l'.front < |l.counts| ==> l'.counts[l'.front] <= l.counts[l'.front]
    decreases |l.counts| - l.front
  {
    if l.counts[l.front] <= owed && owed - l.counts[l.front] != 0 {
      DeductShrinksFront(Lots(l.counts, l.front + 1), owed - l.counts[l.front]);
    }
  }

  /**
   * FIFO shape: the surviving lots are a suffix of the BUY lots; every surviving
   * lot after the first keeps its original count, and with non-negative SELLs
   * the first one can only have shrunk.
   */
  lemma {:induction false} NetShape(l: Lots, sells: seq<int>)
    requires l.Valid() && Net(l, sells).Netted?
    ensures var l' := Net(l, sells).lots;
      forall j :: l'.front < j < |l.counts| ==> l'.counts[j] == l.counts[j]
    ensures var l' := Net(l, sells).lots;
      AllNonNegative(sells) && l'.front < |l.counts| ==> l'.counts[l'.front] <= l.counts[l'.front]
    decreases |sells|
  {
    if sells != [] {
      var l1 := Deduct(l, sells[0]).value;
      DeductTouchesOnlyFront(l, sells[0]);
      NetShape(l1, sells[1..]);
      if AllNonNegative(sells) {
        DeductShrinksFront(l, sells[0]);
      }
    }
  }

  /** One SELL fails exactly when it exceeds the open shares or nothing is left to take from. */
  lemma {:induction false} DeductFails(l: Lots, owed: int)
    requires l.Valid() && AllPositive(l.Open()) && owed >= 0
    ensures Deduct(l, owed).None? <==> owed > Sum(l.Open()) || l.Open() == []
    decreases |l.counts| - l.front
  {
    if l.front < |l.counts| {
      var next := Lots(l.counts, l.front + 1);
      OpenStep(l);
      SumPositive(next.Open());
      if l.counts[l.front] <= owed && owed - l.counts[l.front] != 0 {
        DeductFails(next, owed - l.counts[l.front]);
        SumPositive(next.Open());
      }
    }
  }

  /**
   * With positive BUY lots and positive SELLs, the netting fails exactly when
   * more shares are sold than were bought.
   */
  lemma {:induction false} NetFailsIffOversold(l: Lots, sells: seq<int>)
    requires l.Valid() && AllPositive(l.Open()) && AllPositive(sells)
    ensures Net(l, sells).Oversold? <==> Sum(sells) > Sum(l.Open())
    decreases |sells|
  {
    SumPositive(l.Open());
    if sells != [] {
      assert AllNonNegative(sells[1..]);
      SumNonNegative(sells[1..]);
      DeductFails(l, sells[0]);
      assert Sum(sells) == sells[0] + Sum(sells[1..]);
      if Deduct(l, sells[0]).Some? {
        var l1 := Deduct(l, sells[0]).value;
        DeductConserves(l, sells[0]);
        DeductKeepsPositive(l, sells[0]);
        assert AllPositive(sells[1..]);
        NetFailsIffOversold(l1, sells[1..]);
        assert Net(l, sells) == Net(l1, sells[1..]);
      } else {
        assert Net(l, sells).Oversold?;
        assert sells[0] > 0;
      }
    }
  }

  /**
   * The general failure condition for non-negative SELLs: some prefix of the
   * SELLs exhausts every lot before the next SELL (even a zero-share one) is
   * applied, or the SELLs together exceed the BUYs.
   */
  lemma {:induction false} NetFailsExactly(l: Lots, sells: seq<int>)
    requires l.Valid() && AllPositive(l.Open()) && AllNonNegative(sells)
    ensures Net(l, sells).Oversold? <==>
      Sum(sells) > Sum(l.Open()) || exists i :: 0 <= i < |sells| && Sum(sells[..i]) == Sum(l.Open())
    decreases |sells|
  {
    SumPositive(l.Open());
    if sells != [] {
      var s := Sum(l.Open());
      var rest := sells[1..];
      assert AllNonNegative(rest);
      SumNonNegative(rest);
      DeductFails(l, sells[0]);
      assert sells[..0] == [];
      if Deduct(l, sells[0]).None? {
        if l.Open() == [] {
          assert Sum(sells[..0]) == s;
        }
      } else {
        var l1 := Deduct(l, sells[0]).value;
        DeductConserves(l, sells[0]);
        DeductKeepsPositive(l, sells[0]);
        NetFailsExactly(l1, rest);
        assert s > 0;
        forall i | 0 <= i < |rest|
          ensures Sum(sells[..i + 1]) == sells[0] + Sum(rest[..i])
        {
          assert sells[..i + 1][1..] == rest[..i];
        }
        if exists i :: 0 <= i < |rest| && Sum(rest[..i]) == s - sells[0] {
          var i :| 0 <= i < |rest| && Sum(rest[..i]) == s - sells[0];
          assert Sum(sells[..i + 1]) == s;
        }
        if exists i :: 0 <= i < |sells| && Sum(sells[..i]) == s {
          var i :| 0 <= i < |sells| && Sum(sells[..i]) == s;
          assert i != 0;
          assert Sum(rest[..i - 1]) == s - sells[0];
        }
      }
    }
  }

  /** Once every lot is gone, any further SELL fails, a zero-share one included. */
  lemma NetFailsWhenEmpty(l: Lots, sells: seq<int>)
    requires l.Valid() && l.Open() == [] && sells != []
    ensures Net(l, sells) == Oversold(l.counts)
  {
  }

  /**
   * Why order matters on a shared date: the stable sort keeps two same-date
   * BUY lots of 5 and 3 shares in input order, and a SELL of 4 then leaves
   * lots of 1 and 3 shares, or, with the lots the other way round, a single
   * lot of 4 shares.
   */
  lemma SameDateOrderMatters()
    ensures Net(Lots([5, 3], 0), [4]) == Netted(Lots([1, 3], 0))
    ensures Net(Lots([3, 5], 0), [4]) == Netted(Lots([3, 4], 1))
    ensures Net(Lots([5, 3], 0), [4]).lots.Open() != Net(Lots([3, 5], 0), [4]).lots.Open()
  {
    assert [5, 3][0 := 1] == [1, 3];
    assert [3, 5][1 := 4] == [3, 4];
    assert Deduct(Lots([3, 5], 0), 4) == Some(Lots([3, 4], 1));
  }
}
