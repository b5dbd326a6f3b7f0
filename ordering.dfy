/**
 * The order refresh keeps the available list in: ascending column id, as
 * Collections.sort does with a comparator that compares ids with
 * String.compareTo.
 */
module IdOrder {
  import opened Fields

  /**
   * compareTo(a, b) <= 0: at the first position where the two strings
   * differ, `a` has the smaller character; a proper prefix comes first.
   */
  predicate IdLe(a: string, b: string)
  {
    |a| == 0 || (|b| > 0 && (a[0] < b[0] || (a[0] == b[0] && IdLe(a[1..], b[1..]))))
  }

  lemma {:induction false} IdLeReflexive(a: string)
    ensures IdLe(a, a)
  {
    if |a| > 0 {
      IdLeReflexive(a[1..]);
    }
  }

  lemma {:induction false} IdLeTotal(a: string, b: string)
    ensures IdLe(a, b) || IdLe(b, a)
  {
    if |a| > 0 && |b| > 0 && a[0] == b[0] {
      IdLeTotal(a[1..], b[1..]);
    }
  }

  /** Two ids each ordered before the other are equal: compareTo returns 0 only for equal strings. */
  lemma {:induction false} IdLeAntisymmetric(a: string, b: string)
    requires IdLe(a, b) && IdLe(b, a)
    ensures a == b
  {
    if |a| > 0 {
      IdLeAntisymmetric(a[1..], b[1..]);
      assert a == [a[0]] + a[1..] && b == [b[0]] + b[1..];
    }
  }

  lemma {:induction false} IdLeTransitive(a: string, b: string, c: string)
    requires IdLe(a, b) && IdLe(b, c)
    ensures IdLe(a, c)
  {
    if |a| > 0 && a[0] == b[0] && b[0] == c[0] {
      IdLeTransitive(a[1..], b[1..], c[1..]);
    }
  }

  predicate SortedById(s: seq<Field>)
  {
    forall i, j :: 0 <= i < j < |s| ==> IdLe(IdOf(s[i]), IdOf(s[j]))
  }

  /** Place `x` after the leading entries whose ids do not exceed its own. */
  function InsertById(s: seq<Field>, x: Field): (r: seq<Field>)
    ensures multiset(r) == multiset(s) + multiset{x}
  {
    if |s| == 0 then [x]
    else
      assert s == [s[0]] + s[1..];
      if IdLe(IdOf(s[0]), IdOf(x)) then [s[0]] + InsertById(s[1..], x)
      else [x] + s
  }

  /** A stable sort by column id: each entry is inserted, in list order, after the equal ids before it. */
  function SortById(s: seq<Field>): (r: seq<Field>)
    ensures multiset(r) == multiset(s)
  {
    if |s| == 0 then []
    else
      assert s == s[..|s| - 1] + [s[|s| - 1]];
      InsertById(SortById(s[..|s| - 1]), s[|s| - 1])
  }

  /** An id below every entry and below `x` stays below every entry after inserting `x`. */
  lemma InsertByIdLowerBound(s: seq<Field>, x: Field, b: string)
    requires forall i :: 0 <= i < |s| ==> IdLe(b, IdOf(s[i]))
    requires IdLe(b, IdOf(x))
    ensures forall j :: 0 <= j < |InsertById(s, x)| ==> IdLe(b, IdOf(InsertById(s, x)[j]))
  {
    var t := InsertById(s, x);
    forall j | 0 <= j < |t| ensures IdLe(b, IdOf(t[j])) {
      assert t[j] in multiset(t);
      if t[j] != x {
        assert t[j] in s;
      }
    }
  }

  lemma {:induction false} InsertByIdSorted(s: seq<Field>, x: Field)
    requires SortedById(s)
    ensures SortedById(InsertById(s, x))
  {
    if |s| > 0 {
      if IdLe(IdOf(s[0]), IdOf(x)) {
        var t := InsertById(s[1..], x);
        assert SortedById(s[1..]);
        InsertByIdSorted(s[1..], x);
        InsertByIdLowerBound(s[1..], x, IdOf(s[0]));
        assert InsertById(s, x) == [s[0]] + t;
      } else {
        IdLeTotal(IdOf(s[0]), IdOf(x));
        forall j | 0 <= j < |s|
          ensures IdLe(IdOf(x), IdOf(s[j]))
        {
          if j > 0 {
            IdLeTransitive(IdOf(x), IdOf(s[0]), IdOf(s[j]));
          }
        }
      }
    }
  }

  lemma {:induction false} SortByIdSorted(s: seq<Field>)
    ensures SortedById(SortById(s))
  {
    if |s| > 0 {
      SortByIdSorted(s[..|s| - 1]);
      InsertByIdSorted(SortById(s[..|s| - 1]), s[|s| - 1]);
    }
  }

  lemma {:induction false} InsertByIdAtEnd(s: seq<Field>, x: Field)
    requires forall i :: 0 <= i < |s| ==> IdLe(IdOf(s[i]), IdOf(x))
    ensures InsertById(s, x) == s + [x]
  {
    if |s| > 0 {
      InsertByIdAtEnd(s[1..], x);
      assert s == [s[0]] + s[1..];
    }
  }

  /** The front of a sorted list is sorted, and no id in it exceeds the last entry's. */
  lemma SortedSplit(init: seq<Field>, x: Field)
    requires SortedById(init + [x])
    ensures SortedById(init)
    ensures forall i :: 0 <= i < |init| ==> IdLe(IdOf(init[i]), IdOf(x))
  {
    var s := init + [x];
    forall i, j | 0 <= i < j < |init| ensures IdLe(IdOf(init[i]), IdOf(init[j])) {
      assert init[i] == s[i] && init[j] == s[j];
    }
    forall i | 0 <= i < |init| ensures IdLe(IdOf(init[i]), IdOf(x)) {
      assert init[i] == s[i] && x == s[|init|];
    }
  }

  /** Sorting a list that is already sorted by id leaves it as it is. */
  lemma {:induction false} SortByIdOfSorted(s: seq<Field>)
    requires SortedById(s)
    ensures SortById(s) == s
  {
    if |s| > 0 {
      var init, x := s[..|s| - 1], s[|s| - 1];
      assert s == init + [x];
      assert SortById(s) == InsertById(SortById(init), x);
      SortedSplit(init, x);
      SortByIdOfSorted(init);
      InsertByIdAtEnd(init, x);
    }
  }

  // ---------------------------------------------------------------------------
  // Stability: entries with equal ids keep their relative order

  /** The entries of `s` whose id is `k`, in their order in `s`. */
  function WithId(s: seq<Field>, k: string): seq<Field>
  {
    if |s| == 0 then [] else (if IdOf(s[0]) == k then [s[0]] else []) + WithId(s[1..], k)
  }

  lemma ConcatAssoc(a: seq<Field>, b: seq<Field>, c: seq<Field>)
    ensures a + (b + c) == (a + b) + c
  {
  }

  lemma {:induction false} WithIdAppend(a: seq<Field>, b: seq<Field>, k: string)
    ensures WithId(a + b, k) == WithId(a, k) + WithId(b, k)
  {
    if |a| == 0 {
      assert a + b == b;
    } else {
      var head := if IdOf(a[0]) == k then [a[0]] else [];
      assert (a + b)[0] == a[0] && (a + b)[1..] == a[1..] + b;
      WithIdAppend(a[1..], b, k);
      calc {
        WithId(a + b, k);
        head + WithId(a[1..] + b, k);
        head + (WithId(a[1..], k) + WithId(b, k));
        { ConcatAssoc(head, WithId(a[1..], k), WithId(b, k)); }
        (head + WithId(a[1..], k)) + WithId(b, k);
        WithId(a, k) + WithId(b, k);
      }
    }
  }

  lemma {:induction false} WithIdMembers(s: seq<Field>, k: string, f: Field)
    requires f in WithId(s, k)
    ensures f in s && IdOf(f) == k
  {
    if f != s[0] || IdOf(s[0]) != k {
      WithIdMembers(s[1..], k, f);
    }
  }

  lemma {:induction false} WithIdNone(s: seq<Field>, k: string)
    requires forall i :: 0 <= i < |s| ==> IdOf(s[i]) != k
    ensures WithId(s, k) == []
  {
    if |s| > 0 {
      WithIdNone(s[1..], k);
    }
  }

  /** When a sorted list starts above `x`, no entry of it has `x`'s id. */
  lemma NoneWithIdBelow(t: seq<Field>, x: Field)
    requires SortedById(t) && |t| > 0 && !IdLe(IdOf(t[0]), IdOf(x))
    ensures forall i :: 0 <= i < |t| ==> IdOf(t[i]) != IdOf(x)
  {
    IdLeReflexive(IdOf(x));
    forall i | 0 <= i < |t| ensures IdOf(t[i]) != IdOf(x) {
      if i > 0 {
        assert IdLe(IdOf(t[0]), IdOf(t[i]));
      }
    }
  }

  lemma SortedTail(s: seq<Field>)
    requires SortedById(s) && |s| > 0
    ensures SortedById(s[1..])
  {
    forall i, j | 0 <= i < j < |s| - 1 ensures IdLe(IdOf(s[1..][i]), IdOf(s[1..][j])) {
      assert s[1..][i] == s[i + 1] && s[1..][j] == s[j + 1];
    }
  }

  /** Placing `x` in front of a sorted list that starts above it keeps `x` after every entry with its id. */
  lemma InsertInFrontStable(t: seq<Field>, x: Field, k: string)
    requires SortedById(t) && |t| > 0 && !IdLe(IdOf(t[0]), IdOf(x))
    ensures WithId([x] + t, k) == WithId(t, k) + WithId([x], k)
  {
    NoneWithIdBelow(t, x);
    if IdOf(x) == k {
      WithIdNone(t, k);
    }
    WithIdAppend([x], t, k);
  }

  /** One step of insertion past a head entry keeps the entries of every id in order. */
  lemma InsertPastHeadStable(t: seq<Field>, x: Field, k: string)
    requires |t| > 0 && IdLe(IdOf(t[0]), IdOf(x))
    requires WithId(InsertById(t[1..], x), k) == WithId(t[1..], k) + WithId([x], k)
    ensures WithId(InsertById(t, x), k) == WithId(t, k) + WithId([x], k)
  {
    var rest := InsertById(t[1..], x);
    var head := if IdOf(t[0]) == k then [t[0]] else [];
    assert InsertById(t, x) == [t[0]] + rest;
    assert ([t[0]] + rest)[0] == t[0] && ([t[0]] + rest)[1..] == rest;
    calc {
      WithId(InsertById(t, x), k);
      head + WithId(rest, k);
      head + (WithId(t[1..], k) + WithId([x], k));
      { ConcatAssoc(head, WithId(t[1..], k), WithId([x], k)); }
      (head + WithId(t[1..], k)) + WithId([x], k);
      WithId(t, k) + WithId([x], k);
    }
  }

  /** Inserting into a sorted list puts `x` after every entry with the same id. */
  lemma {:induction false} InsertByIdStable(t: seq<Field>, x: Field, k: string)
    requires SortedById(t)
    ensures WithId(InsertById(t, x), k) == WithId(t, k) + WithId([x], k)
  {
    if |t| > 0 {
      if IdLe(IdOf(t[0]), IdOf(x)) {
        SortedTail(t);
        InsertByIdStable(t[1..], x, k);
        InsertPastHeadStable(t, x, k);
      } else {
        assert InsertById(t, x) == [x] + t;
        InsertInFrontStable(t, x, k);
      }
    }
  }

  /** SortById is stable: for every id, the entries with that id come out in their input order. */
  lemma {:induction false} SortByIdStable(s: seq<Field>, k: string)
    ensures WithId(SortById(s), k) == WithId(s, k)
  {
    if |s| > 0 {
      var init, x := s[..|s| - 1], s[|s| - 1];
      assert s == init + [x];
      SortByIdStable(init, k);
      SortByIdSorted(init);
      InsertByIdStable(SortById(init), x, k);
      WithIdAppend(init, [x], k);
    }
  }

  /** A non-empty list has an entry with its first entry's id. */
  lemma WithIdHead(s: seq<Field>)
    requires |s| > 0
    ensures WithId(s, IdOf(s[0])) != []
  {
  }

  /** Two sorted lists that agree on the entries of every id start with the same entry. */
  lemma SortedStableHeads(a: seq<Field>, b: seq<Field>)
    requires SortedById(a) && SortedById(b) && |a| > 0 && |b| > 0
    requires forall k :: WithId(a, k) == WithId(b, k)
    ensures a[0] == b[0]
  {
    var ka, kb := IdOf(a[0]), IdOf(b[0]);
    assert WithId(a, ka)[0] == a[0];
    WithIdMembers(b, ka, a[0]);
    var j :| 0 <= j < |b| && b[j] == a[0];
    if j == 0 { IdLeReflexive(kb); }
    assert WithId(b, kb)[0] == b[0];
    WithIdMembers(a, kb, b[0]);
    var i :| 0 <= i < |a| && a[i] == b[0];
    if i == 0 { IdLeReflexive(ka); }
    IdLeAntisymmetric(ka, kb);
  }

  /** Dropping a common first entry keeps two lists in agreement on the entries of every id. */
  lemma StableTails(a: seq<Field>, b: seq<Field>)
    requires |a| > 0 && |b| > 0 && a[0] == b[0]
    requires forall k :: WithId(a, k) == WithId(b, k)
    ensures forall k :: WithId(a[1..], k) == WithId(b[1..], k)
  {
    forall k ensures WithId(a[1..], k) == WithId(b[1..], k) {
      var x, y := WithId(a[1..], k), WithId(b[1..], k);
      assert WithId(a, k) == WithId(b, k);
      if IdOf(a[0]) == k {
        assert WithId(a, k) == [a[0]] + x && WithId(b, k) == [a[0]] + y;
        assert ([a[0]] + x)[1..] == x && ([a[0]] + y)[1..] == y;
      } else {
        assert WithId(a, k) == [] + x && WithId(b, k) == [] + y;
        assert [] + x == x && [] + y == y;
      }
    }
  }

  /** Two lists sorted by id that agree, for every id, on the entries with that id, are equal. */
  lemma {:induction false} SortedStableUnique(a: seq<Field>, b: seq<Field>)
    requires SortedById(a) && SortedById(b)
    requires forall k :: WithId(a, k) == WithId(b, k)
    ensures a == b
    decreases |a|
  {
    if |a| > 0 {
      WithIdHead(a);
    }
    if |b| > 0 {
      WithIdHead(b);
    }
    if |a| > 0 && |b| > 0 {
      SortedStableHeads(a, b);
      StableTails(a, b);
      SortedTail(a);
      SortedTail(b);
      SortedStableUnique(a[1..], b[1..]);
      assert a == [a[0]] + a[1..] && b == [b[0]] + b[1..];
    }
  }

  /**
   * What Collections.sort returns is determined: any list sorted by id that
   * keeps, for every id, the input order of its entries (as the stable sort
   * Collections.sort does) is SortById of the input.
   */
  lemma StableSortIsSortById(s: seq<Field>, r: seq<Field>)
    requires SortedById(r)
    requires forall k :: WithId(r, k) == WithId(s, k)
    ensures r == SortById(s)
  {
    SortByIdSorted(s);
    forall k ensures WithId(r, k) == WithId(SortById(s), k) {
      SortByIdStable(s, k);
    }
    SortedStableUnique(r, SortById(s));
  }
}
