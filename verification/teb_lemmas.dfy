/**
 * What the grouping of `Teb.process` guarantees: one fund per distinct key,
 * every line filed exactly once under its own key, in line order, and funds
 * that share no action object when no two lines do, which is what
 * `drop_sold_funds` needs of its input.
 */
module TebLemmas {
  import opened Funds
  import opened Teb

  /** No action object is recorded on two lines: each parsed line creates its own. */
  predicate LinesDistinct(entries: seq<Entry>)
  {
    forall i, j :: 0 <= i < j < |entries| ==> entries[i].1 != entries[j].1
  }

  /** How many lines the funds with keys `keys` hold between them. */
  function Filed(entries: seq<Entry>, keys: seq<string>): nat
  {
    if keys == [] then 0 else Filed(entries, keys[..|keys| - 1]) + |ActionsOf(entries, keys[|keys| - 1])|
  }

  /** Each key gets one fund: the keys come out without repetition. */
  lemma {:induction false} KeysDistinct(entries: seq<Entry>)
    ensures forall i, j :: 0 <= i < j < |Keys(entries)| ==> Keys(entries)[i] != Keys(entries)[j]
  {
    if entries != [] {
      KeysDistinct(entries[..|entries| - 1]);
    }
  }

  /** The keys are exactly the keys that occur on some line. */
  lemma {:induction false} KeysMembers(entries: seq<Entry>)
    ensures forall k :: k in Keys(entries) <==> exists i :: 0 <= i < |entries| && entries[i].0 == k
  {
    if entries != [] {
      var front := entries[..|entries| - 1];
      KeysMembers(front);
      forall k | k in Keys(entries) ensures exists i :: 0 <= i < |entries| && entries[i].0 == k {
        if k in Keys(front) {
          var i :| 0 <= i < |front| && front[i].0 == k;
          assert entries[i] == front[i];
        }
      }
      forall k, i | 0 <= i < |entries| && entries[i].0 == k ensures k in Keys(entries) {
        if i < |front| {
          assert front[i] == entries[i];
        }
      }
    }
  }

  /** A key's fund holds exactly the actions of the lines that carry that key. */
  lemma {:induction false} ActionsOfMembers(entries: seq<Entry>, key: string, a: Action)
    ensures a in ActionsOf(entries, key) <==> exists i :: 0 <= i < |entries| && entries[i].0 == key && entries[i].1 == a
  {
    if entries != [] {
      var front := entries[..|entries| - 1];
      ActionsOfMembers(front, key, a);
      if a in ActionsOf(front, key) {
        var i :| 0 <= i < |front| && front[i].0 == key && front[i].1 == a;
        assert entries[i] == front[i];
      }
      forall i | 0 <= i < |front| ensures entries[i] == front[i] { }
    }
  }

  /** Filing keeps line order: the lines of a longer export are filed after those of its first part. */
  lemma {:induction false} ActionsOfAppend(first: seq<Entry>, rest: seq<Entry>, key: string)
    ensures ActionsOf(first + rest, key) == ActionsOf(first, key) + ActionsOf(rest, key)
  {
    if rest == [] {
      assert first + rest == first;
    } else {
      var front := rest[..|rest| - 1];
      ActionsOfAppend(first, front, key);
      assert (first + rest)[..|first + rest| - 1] == first + front;
    }
  }

  /** Appending a line adds it to exactly one fund among distinct `keys`: its own, if listed. */
  lemma {:induction false} FiledStep(entries: seq<Entry>, line: Entry, keys: seq<string>)
    requires forall i, j :: 0 <= i < j < |keys| ==> keys[i] != keys[j]
    ensures Filed(entries + [line], keys) == Filed(entries, keys) + if line.0 in keys then 1 else 0
  {
    var longer := entries + [line];
    assert longer[..|longer| - 1] == entries;
    if keys != [] {
      var front := keys[..|keys| - 1];
      FiledStep(entries, line, front);
      if line.0 == keys[|keys| - 1] {
        assert line.0 !in front by {
          forall i | 0 <= i < |front| ensures front[i] != line.0 {
            assert front[i] == keys[i];
          }
        }
      }
      assert line.0 in keys <==> line.0 in front || line.0 == keys[|keys| - 1] by {
        assert keys == front + [keys[|keys| - 1]];
      }
    }
  }

  lemma {:induction false} FiledUnseen(entries: seq<Entry>, keys: seq<string>, key: string)
    requires key !in Keys(entries)
    ensures Filed(entries, keys + [key]) == Filed(entries, keys)
  {
    ActionsOfUnseen(entries, key);
    assert (keys + [key])[..|keys|] == keys;
  }

  /** Every line is filed exactly once: the funds' action lists hold all the lines between them. */
  lemma {:induction false} EveryLineFiled(entries: seq<Entry>)
    ensures Filed(entries, Keys(entries)) == |entries|
  {
    if entries != [] {
      var front := entries[..|entries| - 1];
      var line := entries[|entries| - 1];
      assert entries == front + [line];
      EveryLineFiled(front);
      KeysDistinct(front);
      KeysDistinct(entries);
      FiledStep(front, line, Keys(entries));
      if line.0 !in Keys(front) {
        FiledStep(front, line, Keys(front));
        FiledUnseen(front, Keys(front), line.0);
        assert Filed(entries, Keys(entries)) == Filed(entries, Keys(front)) + |ActionsOf(entries, line.0)|;
        ActionsOfUnseen(front, line.0);
      }
    }
  }

  /** With no action on two lines, no fund holds an action twice. */
  lemma {:induction false} ActionsOfDistinct(entries: seq<Entry>, key: string)
    requires LinesDistinct(entries)
    ensures forall i, j :: 0 <= i < j < |ActionsOf(entries, key)| ==> ActionsOf(entries, key)[i] != ActionsOf(entries, key)[j]
  {
    if entries != [] {
      var front := entries[..|entries| - 1];
      var line := entries[|entries| - 1];
      assert LinesDistinct(front) by {
        forall i, j | 0 <= i < j < |front| ensures front[i].1 != front[j].1 {
          assert front[i] == entries[i] && front[j] == entries[j];
        }
      }
      ActionsOfDistinct(front, key);
      if line.0 == key {
        ActionsOfMembers(front, key, line.1);
        forall i | 0 <= i < |front| ensures front[i].1 != line.1 {
          assert front[i] == entries[i];
        }
      }
    }
  }

  /** With no action on two lines, funds of different keys share no action. */
  lemma ActionsOfApart(entries: seq<Entry>, key: string, other: string)
    requires LinesDistinct(entries) && key != other
    ensures forall a :: a in ActionsOf(entries, key) ==> a !in ActionsOf(entries, other)
  {
    forall a | a in ActionsOf(entries, key) ensures a !in ActionsOf(entries, other) {
      ActionsOfMembers(entries, key, a);
      ActionsOfMembers(entries, other, a);
      var i :| 0 <= i < |entries| && entries[i].0 == key && entries[i].1 == a;
      forall j | 0 <= j < |entries| && entries[j].0 == other ensures entries[j].1 != a {
        assert i < j || j < i;
      }
    }
  }

  /** Funds that pairwise share no action are `Separate`. */
  lemma {:induction false} SeparateIntro(funds: seq<Fund>)
    requires forall i, j, a :: 0 <= i < j < |funds| && a in funds[i].actions ==> a !in funds[j].actions
    ensures Separate(funds)
  {
    if funds != [] {
      var rest := funds[1..];
      forall a | a in funds[0].actions ensures a !in Footprint(rest) {
        forall j | 0 <= j < |rest| ensures a !in rest[j].actions {
          assert rest[j] == funds[j + 1];
        }
      }
      assert forall i, j, a :: 0 <= i < j < |rest| && a in rest[i].actions ==> a !in rest[j].actions by {
        forall i, j, a | 0 <= i < j < |rest| && a in rest[i].actions ensures a !in rest[j].actions {
          assert rest[i] == funds[i + 1] && rest[j] == funds[j + 1];
        }
      }
      SeparateIntro(rest);
    }
  }

  /**
   * The funds `Process` builds from lines that each create their own action
   * satisfy what `DropSoldFunds` requires: no action twice in one fund and
   * no action in two funds.
   */
  lemma ProcessedSeparate(entries: seq<Entry>, funds: seq<Fund>)
    requires LinesDistinct(entries)
    requires |funds| == |Keys(entries)|
    requires forall j :: 0 <= j < |funds| ==>
      funds[j].key == Keys(entries)[j] && funds[j].actions == ActionsOf(entries, Keys(entries)[j])
    ensures forall j :: 0 <= j < |funds| ==> Distinct(funds[j].actions)
    ensures Separate(funds)
  {
    forall j | 0 <= j < |funds| ensures Distinct(funds[j].actions) {
      ActionsOfDistinct(entries, funds[j].key);
      DistinctIntro(funds[j].actions);
    }
    KeysDistinct(entries);
    forall i, j, a | 0 <= i < j < |funds| && a in funds[i].actions ensures a !in funds[j].actions {
      ActionsOfApart(entries, funds[i].key, funds[j].key);
    }
    SeparateIntro(funds);
  }
}
