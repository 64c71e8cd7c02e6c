/**
 * The TEB export format of tefas_ui.py: the number rewrite of
 * `Teb.normalize_float` and the grouping of parsed actions into funds done by
 * `Teb.process`.
 */
module Teb {
  import opened Funds

  /** `s` with every `c` removed: `s.replace(c, "")`. */
  function RemoveAll(s: string, c: char): (r: string)
    ensures |r| <= |s|
  {
    if s == [] then [] else (if s[0] == c then [] else [s[0]]) + RemoveAll(s[1..], c)
  }

  /** `s` with its first `c` replaced by `d`: `s.replace(c, d, 1)`. */
  function ReplaceFirst(s: string, c: char, d: char): (r: string)
    ensures |r| == |s|
  {
    if s == [] then []
    else if s[0] == c then [d] + s[1..]
    else [s[0]] + ReplaceFirst(s[1..], c, d)
  }

  /**
   * The string rewrite of `normalize_float` ("5.000,50" becomes "5000.50"):
   * the thousands dots go, then the first comma becomes the decimal point.
   * The `float()` conversion that follows is not part of this model.
   */
  function NormalizeFloat(data: string): (r: string)
    ensures ',' !in data ==> r == RemoveAll(data, '.')
  {
    RemoveAllKeeps(data, '.', ',');
    ReplaceFirstAbsent(RemoveAll(data, '.'), ',', '.');
    ReplaceFirst(RemoveAll(data, '.'), ',', '.')
  }

  /** Removing `c` keeps every other character that occurs, and adds none. */
  lemma {:induction false} RemoveAllKeeps(s: string, c: char, e: char)
    requires e != c
    ensures (e in RemoveAll(s, c)) == (e in s)
  {
    if s != [] {
      RemoveAllKeeps(s[1..], c, e);
      assert s == [s[0]] + s[1..];
    }
  }

  /** A string with no `c` in it is left as it is. */
  lemma {:induction false} ReplaceFirstAbsent(s: string, c: char, d: char)
    ensures c !in s ==> ReplaceFirst(s, c, d) == s
  {
    if s != [] && c !in s {
      ReplaceFirstAbsent(s[1..], c, d);
      assert s == [s[0]] + s[1..];
    }
  }

  /** With no `c` before it, the `c` between `a` and `b` is the one replaced. */
  lemma {:induction false} ReplaceFirstSplit(a: string, b: string, c: char, d: char)
    requires c !in a
    ensures ReplaceFirst(a + [c] + b, c, d) == a + [d] + b
  {
    if a != [] {
      ReplaceFirstSplit(a[1..], b, c, d);
      assert (a + [c] + b)[1..] == a[1..] + [c] + b;
    }
  }

  /**
   * Where the decimal point lands: the first comma of the input becomes the
   * '.', the digits before it are the integer part and the rest the fraction,
   * each with its thousands dots dropped.
   */
  lemma {:induction false} NormalizeFloatSplit(a: string, b: string)
    requires ',' !in a
    ensures NormalizeFloat(a + [','] + b) == RemoveAll(a, '.') + ['.'] + RemoveAll(b, '.')
  {
    var front, back := RemoveAll(a, '.'), RemoveAll(b, '.');
    RemoveAllAppend(a + [','], b, '.');
    RemoveAllAppend(a, [','], '.');
    assert RemoveAll([','], '.') == [','];
    assert RemoveAll(a + [','] + b, '.') == front + [','] + back;
    RemoveAllKeeps(a, '.', ',');
    ReplaceFirstSplit(front, back, ',', '.');
  }

  /** How many times `c` occurs in `s`. */
  function Count(s: string, c: char): nat
  {
    if s == [] then 0 else (if s[0] == c then 1 else 0) + Count(s[1..], c)
  }

  /** The characters of `s` other than '.' and ',', in order. */
  function Unpunctuated(s: string): string
  {
    if s == [] then [] else (if s[0] == '.' || s[0] == ',' then [] else [s[0]]) + Unpunctuated(s[1..])
  }

  /** Removing `c` drops exactly its occurrences and keeps every other character's count. */
  lemma {:induction false} RemoveAllCounts(s: string, c: char, e: char)
    ensures Count(RemoveAll(s, c), e) == if e == c then 0 else Count(s, e)
    ensures |RemoveAll(s, c)| == |s| - Count(s, c)
  {
    if s != [] {
      RemoveAllCounts(s[1..], c, e);
      var head := if s[0] == c then [] else [s[0]];
      assert RemoveAll(s, c) == head + RemoveAll(s[1..], c);
      CountAppend(head, RemoveAll(s[1..], c), e);
    }
  }

  lemma {:induction false} CountAppend(s: string, t: string, e: char)
    ensures Count(s + t, e) == Count(s, e) + Count(t, e)
  {
    if s != [] {
      assert (s + t)[1..] == s[1..] + t;
      CountAppend(s[1..], t, e);
    } else {
      assert s + t == t;
    }
  }

  lemma {:induction false} UnpunctuatedAppend(s: string, t: string)
    ensures Unpunctuated(s + t) == Unpunctuated(s) + Unpunctuated(t)
  {
    if s != [] {
      assert (s + t)[1..] == s[1..] + t;
      UnpunctuatedAppend(s[1..], t);
    } else {
      assert s + t == t;
    }
  }

  /**
   * `ReplaceFirst` against an independent description: with no `c` the string
   * is unchanged, and otherwise exactly the position of the first `c` now
   * holds `d`.
   */
  lemma {:induction false} ReplaceFirstUpdates(s: string, c: char, d: char)
    ensures Count(s, c) == 0 ==> ReplaceFirst(s, c, d) == s
    ensures forall p :: 0 <= p < |s| && s[p] == c && Count(s[..p], c) == 0 ==> ReplaceFirst(s, c, d) == s[p := d]
  {
    if Count(s, c) == 0 {
      ReplaceFirstUncounted(s, c, d);
    }
    forall p | 0 <= p < |s| && s[p] == c && Count(s[..p], c) == 0
      ensures ReplaceFirst(s, c, d) == s[p := d]
    {
      ReplaceFirstAt(s, c, d, p);
    }
  }

  lemma {:induction false} ReplaceFirstUncounted(s: string, c: char, d: char)
    requires Count(s, c) == 0
    ensures ReplaceFirst(s, c, d) == s
  {
    if s != [] {
      ReplaceFirstUncounted(s[1..], c, d);
    }
  }

  /** When position `p` holds the first `c`, it is the one overwritten. */
  lemma {:induction false} ReplaceFirstAt(s: string, c: char, d: char, p: nat)
    requires p < |s| && s[p] == c && Count(s[..p], c) == 0
    ensures ReplaceFirst(s, c, d) == s[p := d]
  {
    if p > 0 {
      var rest := s[1..];
      assert s[..p] == [s[0]] + rest[..p - 1];
      CountAppend([s[0]], rest[..p - 1], c);
      assert rest[p - 1] == c;
      ReplaceFirstAt(rest, c, d, p - 1);
      assert s[p := d] == [s[0]] + rest[p - 1 := d];
    }
  }

  /** `ReplaceFirst` turns one `c` into `d`, if there is one, and leaves every other character alone. */
  lemma {:induction false} ReplaceFirstCounts(s: string, c: char, d: char)
    requires c != d
    ensures Count(ReplaceFirst(s, c, d), c) == if Count(s, c) > 0 then Count(s, c) - 1 else 0
    ensures Count(ReplaceFirst(s, c, d), d) == Count(s, d) + if Count(s, c) > 0 then 1 else 0
  {
    if s != [] {
      ReplaceFirstCounts(s[1..], c, d);
      if s[0] == c {
        assert ReplaceFirst(s, c, d) == [d] + s[1..];
        assert ([d] + s[1..])[1..] == s[1..];
      } else {
        assert ReplaceFirst(s, c, d)[1..] == ReplaceFirst(s[1..], c, d);
      }
    }
  }

  lemma {:induction false} RemoveAllUnpunctuated(s: string)
    ensures Unpunctuated(RemoveAll(s, '.')) == Unpunctuated(s)
  {
    if s != [] {
      RemoveAllUnpunctuated(s[1..]);
      var head := if s[0] == '.' then [] else [s[0]];
      UnpunctuatedAppend(head, RemoveAll(s[1..], '.'));
    }
  }

  lemma {:induction false} ReplaceFirstUnpunctuated(s: string)
    ensures Unpunctuated(ReplaceFirst(s, ',', '.')) == Unpunctuated(s)
  {
    if s != [] && s[0] != ',' {
      ReplaceFirstUnpunctuated(s[1..]);
      assert ReplaceFirst(s, ',', '.')[1..] == ReplaceFirst(s[1..], ',', '.');
    } else if s != [] {
      assert ReplaceFirst(s, ',', '.')[1..] == s[1..];
    }
  }

  /**
   * What `normalize_float` leaves for `float()`: at most one '.', present
   * exactly when the input has a comma; one comma fewer when there is one;
   * every other character kept, in order; and one character fewer per
   * thousands dot.
   */
  lemma NormalizeFloatShape(data: string)
    ensures Count(NormalizeFloat(data), '.') == if Count(data, ',') > 0 then 1 else 0
    ensures Count(NormalizeFloat(data), ',') == if Count(data, ',') > 0 then Count(data, ',') - 1 else 0
    ensures Unpunctuated(NormalizeFloat(data)) == Unpunctuated(data)
    ensures |NormalizeFloat(data)| == |data| - Count(data, '.')
  {
    var stripped := RemoveAll(data, '.');
    RemoveAllCounts(data, '.', '.');
    RemoveAllCounts(data, '.', ',');
    ReplaceFirstCounts(stripped, ',', '.');
    RemoveAllUnpunctuated(data);
    ReplaceFirstUnpunctuated(stripped);
  }

  /** The example the source gives: "5.000,50" becomes "5000.50". */
  lemma NormalizeFloatExample()
    ensures NormalizeFloat("5.000,50") == "5000.50"
  {
    NormalizeFloatSplit("5.000", "50");
    assert "5.000" + [','] + "50" == "5.000,50";
    assert RemoveAll("5.000", '.') == "5000";
    assert RemoveAll("50", '.') == "50";
    assert "5000" + ['.'] + "50" == "5000.50";
  }

  lemma {:induction false} RemoveAllAppend(s: string, t: string, c: char)
    ensures RemoveAll(s + t, c) == RemoveAll(s, c) + RemoveAll(t, c)
  {
    if s != [] {
      assert (s + t)[1..] == s[1..] + t;
      RemoveAllAppend(s[1..], t, c);
    } else {
      assert s + t == t;
    }
  }

  lemma {:induction false} RemoveAllAbsent(s: string, c: char)
    requires c !in s
    ensures RemoveAll(s, c) == s
  {
    if s != [] {
      RemoveAllAbsent(s[1..], c);
      assert s == [s[0]] + s[1..];
    }
  }

  /** A parsed line of the export: the fund key and the action it records. */
  type Entry = (string, Action)

  /** The fund keys of `entries` in the order they first appear: the insertion order of the `funds` dict. */
  function Keys(entries: seq<Entry>): (r: seq<string>)
  {
    if entries == [] then []
    else
      var seen := Keys(entries[..|entries| - 1]);
      var key := entries[|entries| - 1].0;
      if key in seen then seen else seen + [key]
  }

  /** The actions filed under `key`, in line order. */
  function ActionsOf(entries: seq<Entry>, key: string): (r: seq<Action>)
  {
    if entries == [] then []
    else
      var last := entries[|entries| - 1];
      ActionsOf(entries[..|entries| - 1], key) + (if last.0 == key then [last.1] else [])
  }

  lemma {:induction false} ActionsOfUnseen(entries: seq<Entry>, key: string)
    requires key !in Keys(entries)
    ensures ActionsOf(entries, key) == []
  {
    if entries != [] {
      ActionsOfUnseen(entries[..|entries| - 1], key);
    }
  }

  /**
   * `Teb.process`: one fund per distinct key, in first-seen order, each
   * holding the actions of its key in line order. The source creates a
   * fund at a key's first line and appends to its list; here each key's
   * list is collected first and the funds are created at the end.
   */
  method Process(entries: seq<Entry>) returns (funds: seq<Fund>)
    ensures |funds| == |Keys(entries)|
    ensures forall j :: 0 <= j < |funds| ==>
      funds[j].key == Keys(entries)[j] && funds[j].actions == ActionsOf(entries, Keys(entries)[j])
    ensures forall j :: 0 <= j < |funds| ==> fresh(funds[j])
  {
    var keys: seq<string> := [];
    var filed: map<string, seq<Action>> := map[];
    for i := 0 to |entries|
      invariant keys == Keys(entries[..i])
      invariant forall k :: k in filed <==> k in keys
      invariant forall k :: k in filed ==> filed[k] == ActionsOf(entries[..i], k)
    {
      var key := entries[i].0;
      assert entries[..i + 1][..i] == entries[..i];
      if key !in filed {
        ActionsOfUnseen(entries[..i], key);
        keys := keys + [key];
        filed := filed[key := []];
      }
      filed := filed[key := filed[key] + [entries[i].1]];
    }
    assert entries[..|entries|] == entries;
    funds := [];
    for j := 0 to |keys|
      invariant |funds| == j
      invariant forall m :: 0 <= m < j ==> funds[m].key == keys[m] && funds[m].actions == filed[keys[m]]
      invariant forall m :: 0 <= m < j ==> fresh(funds[m])
    {
      var fund := new Fund(keys[j], filed[keys[j]]);
      funds := funds + [fund];
    }
  }
}
