/**
 * What refresh does to the available list, stated as functions of the old
 * list and the newly generated column list, and what it guarantees.
 *
 * Refresh runs in three phases: merge every new column into the available
 * list (re-point the entry with the same id, or append a new entry and
 * re-sort by id), drop the entries whose id is no longer among the new
 * columns, and drop the levels whose column id is no longer available.
 */
module Reconcile {
  import opened Wrappers
  import opened Metadata
  import opened Fields
  import opened IdOrder

  /** The index of the first entry whose column id is `id`. */
  function FindById(s: seq<Field>, id: string): (r: Option<nat>)
    ensures r.Some? ==> r.value < |s| && IdOf(s[r.value]) == id
    ensures r.Some? ==> forall j :: 0 <= j < r.value ==> IdOf(s[j]) != id
    ensures r.None? <==> id !in Ids(s)
  {
    if |s| == 0 then None
    else if IdOf(s[0]) == id then Some(0)
    else
      assert s == [s[0]] + s[1..];
      match FindById(s[1..], id)
      case None => None
      case Some(k) => Some(k + 1)
  }

  /** The entry refresh appends for a column it has not seen: only the column and the field name are set. */
  function NewField(lc: Column): Field
  {
    Field(None, lc.name, None, Some(lc))
  }

  /** One turn of refresh's merge loop. */
  function MergeOne(s: seq<Field>, lc: Column): seq<Field>
  {
    match FindById(s, lc.id)
    case Some(k) => s[k := s[k].(column := Some(lc))]
    case None => SortById(s + [NewField(lc)])
  }

  /** Refresh's merge loop over the new columns, in order. */
  function Merge(s: seq<Field>, cols: seq<Column>): seq<Field>
  {
    if |cols| == 0 then s else MergeOne(Merge(s, cols[..|cols| - 1]), cols[|cols| - 1])
  }

  lemma MergeSnoc(s: seq<Field>, cols: seq<Column>, i: nat)
    requires i < |cols|
    ensures Merge(s, cols[..i + 1]) == MergeOne(Merge(s, cols[..i]), cols[i])
  {
    assert cols[..i + 1][..i] == cols[..i];
  }

  /** The entries whose column id is among the new columns, in their order. */
  function KeepPresent(s: seq<Field>, cols: seq<Column>): seq<Field>
  {
    if |s| == 0 then []
    else KeepPresent(s[..|s| - 1], cols) + (if IdOf(s[|s| - 1]) in ColumnIds(cols) then [s[|s| - 1]] else [])
  }

  /** The available list after refresh with the new column list `cols`. */
  function RefreshFields(s: seq<Field>, cols: seq<Column>): seq<Field>
  {
    KeepPresent(Merge(s, cols), cols)
  }

  /** `r` is `s` with some entries re-pointed at other columns of the same id, and nothing else changed. */
  predicate Repointed(r: seq<Field>, s: seq<Field>)
  {
    |r| == |s| &&
    forall k :: 0 <= k < |s| ==> IdOf(r[k]) == IdOf(s[k]) && r[k] == s[k].(column := r[k].column)
  }

  /** An entry that is `f` apart from its column, which has `f`'s id, is in `s`. */
  predicate Survives(f: Field, s: seq<Field>)
  {
    exists g :: g in s && IdOf(g) == IdOf(f) && g == f.(column := g.column)
  }

  /** Every entry of `s` whose id is among `cols` points at a column of `cols`. */
  predicate PointsInto(s: seq<Field>, cols: seq<Column>)
  {
    forall g :: g in s && IdOf(g) in ColumnIds(cols) ==> g.column.Some? && g.column.value in cols
  }

  // ---------------------------------------------------------------------------
  // Column ids of a list

  lemma IdsOfSameMultiset(a: seq<Field>, b: seq<Field>)
    requires multiset(a) == multiset(b)
    ensures Ids(a) == Ids(b)
  {
    forall id | id in Ids(a) ensures id in Ids(b) {
      var f :| f in a && IdOf(f) == id;
      assert f in multiset(b);
    }
    forall id | id in Ids(b) ensures id in Ids(a) {
      var f :| f in b && IdOf(f) == id;
      assert f in multiset(a);
    }
  }

  lemma IdsAppend(s: seq<Field>, x: Field)
    ensures Ids(s + [x]) == Ids(s) + {IdOf(x)}
  {
    assert x in s + [x];
    forall id | id in Ids(s) ensures id in Ids(s + [x]) {
      var f :| f in s && IdOf(f) == id;
      assert f in s + [x];
    }
  }

  lemma IdsRepoint(s: seq<Field>, k: nat, c: Column)
    requires k < |s| && c.id == IdOf(s[k])
    ensures Ids(s[k := s[k].(column := Some(c))]) == Ids(s)
  {
    var r := s[k := s[k].(column := Some(c))];
    forall id | id in Ids(s) ensures id in Ids(r) {
      var f :| f in s && IdOf(f) == id;
      var m :| 0 <= m < |s| && s[m] == f;
      assert IdOf(r[m]) == id;
    }
    forall id | id in Ids(r) ensures id in Ids(s) {
      var f :| f in r && IdOf(f) == id;
      var m :| 0 <= m < |r| && r[m] == f;
      assert IdOf(s[m]) == id;
    }
  }

  lemma NoDupAppend(s: seq<Field>, x: Field)
    requires NoDupIds(s) && IdOf(x) !in Ids(s)
    ensures NoDupIds(s + [x])
  {
    forall i | 0 <= i < |s| ensures IdOf(s[i]) != IdOf(x) {
      assert s[i] in s;
    }
  }

  /** An id that neither `x` nor any entry has is still absent after inserting `x`. */
  lemma InsertByIdAvoids(s: seq<Field>, x: Field, a: string)
    requires forall i :: 0 <= i < |s| ==> IdOf(s[i]) != a
    requires IdOf(x) != a
    ensures forall j :: 0 <= j < |InsertById(s, x)| ==> IdOf(InsertById(s, x)[j]) != a
  {
    var t := InsertById(s, x);
    forall j | 0 <= j < |t| ensures IdOf(t[j]) != a {
      assert t[j] in multiset(t);
      if t[j] != x {
        assert t[j] in s;
      }
    }
  }

  /** Putting an entry whose id no entry of `t` has in front of `t` keeps the ids distinct. */
  lemma NoDupCons(a: Field, t: seq<Field>)
    requires NoDupIds(t)
    requires forall j :: 0 <= j < |t| ==> IdOf(t[j]) != IdOf(a)
    ensures NoDupIds([a] + t)
  {
    var r := [a] + t;
    forall i, j | 0 <= i < j < |r| ensures IdOf(r[i]) != IdOf(r[j]) {
      assert r[j] == t[j - 1];
      if i > 0 {
        assert r[i] == t[i - 1];
      }
    }
  }

  lemma {:induction false} InsertByIdNoDup(s: seq<Field>, x: Field)
    requires NoDupIds(s) && IdOf(x) !in Ids(s)
    ensures NoDupIds(InsertById(s, x))
  {
    if |s| > 0 {
      assert s[0] in s;
      if IdLe(IdOf(s[0]), IdOf(x)) {
        var r := s[1..];
        assert NoDupIds(r) by {
          forall i, j | 0 <= i < j < |r| ensures IdOf(r[i]) != IdOf(r[j]) {
            assert r[i] == s[i + 1] && r[j] == s[j + 1];
          }
        }
        assert IdOf(x) !in Ids(r);
        forall i | 0 <= i < |r| ensures IdOf(r[i]) != IdOf(s[0]) {
          assert r[i] == s[i + 1];
        }
        InsertByIdNoDup(r, x);
        InsertByIdAvoids(r, x, IdOf(s[0]));
        NoDupCons(s[0], InsertById(r, x));
        assert InsertById(s, x) == [s[0]] + InsertById(r, x);
      } else {
        forall j | 0 <= j < |s| ensures IdOf(s[j]) != IdOf(x) {
          assert s[j] in s;
        }
        NoDupCons(x, s);
      }
    }
  }

  lemma {:induction false} SortByIdNoDup(s: seq<Field>)
    requires NoDupIds(s)
    ensures NoDupIds(SortById(s))
  {
    if |s| > 0 {
      var init, x := s[..|s| - 1], s[|s| - 1];
      assert s == init + [x];
      SortByIdNoDup(init);
      IdsOfSameMultiset(SortById(init), init);
      forall f | f in init ensures IdOf(f) != IdOf(x) {
        var m :| 0 <= m < |init| && init[m] == f;
        assert s[m] == f;
      }
      InsertByIdNoDup(SortById(init), x);
    }
  }

  // ---------------------------------------------------------------------------
  // The merge phase

  lemma MergeOneIds(s: seq<Field>, lc: Column)
    ensures Ids(MergeOne(s, lc)) == Ids(s) + {lc.id}
  {
    match FindById(s, lc.id)
    case Some(k) =>
      IdsRepoint(s, k, lc);
      assert s[k] in s;
    case None =>
      IdsOfSameMultiset(SortById(s + [NewField(lc)]), s + [NewField(lc)]);
      IdsAppend(s, NewField(lc));
  }

  lemma ColumnIdsSnoc(cols: seq<Column>)
    requires |cols| > 0
    ensures ColumnIds(cols) == ColumnIds(cols[..|cols| - 1]) + {cols[|cols| - 1].id}
  {
    assert cols == cols[..|cols| - 1] + [cols[|cols| - 1]];
  }

  /** Merging adds exactly the new columns' ids to the ids already present. */
  lemma {:induction false} MergeIds(s: seq<Field>, cols: seq<Column>)
    ensures Ids(Merge(s, cols)) == Ids(s) + ColumnIds(cols)
  {
    if |cols| > 0 {
      MergeIds(s, cols[..|cols| - 1]);
      MergeOneIds(Merge(s, cols[..|cols| - 1]), cols[|cols| - 1]);
      ColumnIdsSnoc(cols);
    }
  }

  lemma MergeOneSorted(s: seq<Field>, lc: Column)
    requires SortedById(s) || FindById(s, lc.id).None?
    ensures SortedById(MergeOne(s, lc))
  {
    match FindById(s, lc.id)
    case Some(k) =>
    case None =>
      SortByIdSorted(s + [NewField(lc)]);
  }

  /** Once a column has been appended, the merged list is sorted by id. */
  lemma {:induction false} MergeSortedIfAppended(s: seq<Field>, cols: seq<Column>)
    requires exists c :: c in cols && c.id !in Ids(s)
    ensures SortedById(Merge(s, cols))
  {
    var init, last := cols[..|cols| - 1], cols[|cols| - 1];
    assert cols == init + [last];
    if exists c :: c in init && c.id !in Ids(s) {
      MergeSortedIfAppended(s, init);
      MergeOneSorted(Merge(s, init), last);
    } else {
      MergeIds(s, init);
      assert last.id !in Ids(Merge(s, init));
      MergeOneSorted(Merge(s, init), last);
    }
  }

  /** When every new id is already present, merging only re-points entries. */
  lemma {:induction false} MergeRepointsOnly(s: seq<Field>, cols: seq<Column>)
    requires ColumnIds(cols) <= Ids(s)
    ensures Repointed(Merge(s, cols), s)
  {
    if |cols| > 0 {
      var init, last := cols[..|cols| - 1], cols[|cols| - 1];
      ColumnIdsSnoc(cols);
      MergeRepointsOnly(s, init);
      MergeIds(s, init);
      var m := Merge(s, init);
      assert last.id in Ids(m);
      var k := FindById(m, last.id).value;
      assert Merge(s, cols) == m[k := m[k].(column := Some(last))];
    }
  }

  lemma MemberOfSort(t: seq<Field>, g: Field)
    requires g in SortById(t)
    ensures g in t
  {
    assert g in multiset(SortById(t));
  }

  /** Merging keeps every entry, only moving its column to one of the same id. */
  lemma {:induction false} MergeKeepsEntries(s: seq<Field>, cols: seq<Column>, f: Field)
    requires Survives(f, s)
    ensures Survives(f, Merge(s, cols))
  {
    if |cols| > 0 {
      var init, lc := cols[..|cols| - 1], cols[|cols| - 1];
      MergeKeepsEntries(s, init, f);
      var m := Merge(s, init);
      var g :| g in m && IdOf(g) == IdOf(f) && g == f.(column := g.column);
      match FindById(m, lc.id)
      case Some(k) =>
        var r := m[k := m[k].(column := Some(lc))];
        var i :| 0 <= i < |m| && m[i] == g;
        if i == k {
          assert r[k] in r && IdOf(r[k]) == IdOf(f) && r[k] == f.(column := r[k].column);
        } else {
          assert r[i] == g;
        }
      case None =>
        var t := m + [NewField(lc)];
        assert g in t;
        assert g in multiset(SortById(t));
    }
  }

  /** Re-pointing the entry of a merged id keeps the ids distinct and the entries pointing into the columns seen so far. */
  lemma RepointNoDupPointsInto(m: seq<Field>, init: seq<Column>, lc: Column, k: nat)
    requires NoDupIds(m) && PointsInto(m, init)
    requires k < |m| && IdOf(m[k]) == lc.id
    ensures NoDupIds(m[k := m[k].(column := Some(lc))])
    ensures PointsInto(m[k := m[k].(column := Some(lc))], init + [lc])
  {
    var r := m[k := m[k].(column := Some(lc))];
    ColumnIdsSnoc(init + [lc]);
    assert (init + [lc])[..|init|] == init;
    forall g | g in r && IdOf(g) in ColumnIds(init + [lc])
      ensures g.column.Some? && g.column.value in init + [lc]
    {
      var i :| 0 <= i < |r| && r[i] == g;
      if i != k {
        assert m[i] == g && g in m;
        assert IdOf(g) != lc.id;
      }
    }
  }

  /** Appending the entry of a new id and sorting keeps the ids distinct and the entries pointing into the columns seen so far. */
  lemma AppendNoDupPointsInto(m: seq<Field>, init: seq<Column>, lc: Column)
    requires NoDupIds(m) && PointsInto(m, init) && lc.id !in Ids(m)
    ensures NoDupIds(SortById(m + [NewField(lc)]))
    ensures PointsInto(SortById(m + [NewField(lc)]), init + [lc])
  {
    var x := NewField(lc);
    ColumnIdsSnoc(init + [lc]);
    assert (init + [lc])[..|init|] == init;
    NoDupAppend(m, x);
    SortByIdNoDup(m + [x]);
    forall g | g in SortById(m + [x]) && IdOf(g) in ColumnIds(init + [lc])
      ensures g.column.Some? && g.column.value in init + [lc]
    {
      MemberOfSort(m + [x], g);
      if g != x {
        assert g in m;
        assert IdOf(g) != lc.id;
      }
    }
  }

  /** Merging into a list without duplicate ids adds none, and points every entry of a merged id at a new column. */
  lemma {:induction false} MergeNoDupPointsInto(s: seq<Field>, cols: seq<Column>)
    requires NoDupIds(s)
    ensures NoDupIds(Merge(s, cols))
    ensures PointsInto(Merge(s, cols), cols)
  {
    if |cols| > 0 {
      var init, lc := cols[..|cols| - 1], cols[|cols| - 1];
      assert cols == init + [lc];
      MergeNoDupPointsInto(s, init);
      var m := Merge(s, init);
      match FindById(m, lc.id)
      case Some(k) =>
        RepointNoDupPointsInto(m, init, lc, k);
      case None =>
        AppendNoDupPointsInto(m, init, lc);
    }
  }

  lemma MergeOneBound(s: seq<Field>, lc: Column)
    requires AllBound(s)
    ensures AllBound(MergeOne(s, lc))
  {
    match FindById(s, lc.id)
    case Some(k) =>
    case None =>
      var t := s + [NewField(lc)];
      var r := SortById(t);
      forall i | 0 <= i < |r| ensures r[i].column.Some? {
        MemberOfSort(t, r[i]);
      }
  }

  lemma {:induction false} MergeBound(s: seq<Field>, cols: seq<Column>)
    requires AllBound(s)
    ensures AllBound(Merge(s, cols))
  {
    if |cols| > 0 {
      MergeBound(s, cols[..|cols| - 1]);
      MergeOneBound(Merge(s, cols[..|cols| - 1]), cols[|cols| - 1]);
    }
  }

  // ---------------------------------------------------------------------------
  // The drop phase

  lemma {:induction false} KeepPresentMembers(s: seq<Field>, cols: seq<Column>)
    ensures forall f :: f in KeepPresent(s, cols) <==> f in s && IdOf(f) in ColumnIds(cols)
  {
    if |s| > 0 {
      KeepPresentMembers(s[..|s| - 1], cols);
      assert s == s[..|s| - 1] + [s[|s| - 1]];
    }
  }

  lemma {:induction false} KeepPresentSorted(s: seq<Field>, cols: seq<Column>)
    requires SortedById(s)
    ensures SortedById(KeepPresent(s, cols))
  {
    if |s| > 0 {
      var init, x := s[..|s| - 1], s[|s| - 1];
      KeepPresentSorted(init, cols);
      KeepPresentMembers(init, cols);
      var k := KeepPresent(init, cols);
      forall i | 0 <= i < |k| ensures IdLe(IdOf(k[i]), IdOf(x)) {
        assert k[i] in k;
        var m :| 0 <= m < |init| && init[m] == k[i];
        assert s[m] == k[i];
      }
    }
  }

  lemma {:induction false} KeepPresentNoDup(s: seq<Field>, cols: seq<Column>)
    requires NoDupIds(s)
    ensures NoDupIds(KeepPresent(s, cols))
  {
    if |s| > 0 {
      var init, x := s[..|s| - 1], s[|s| - 1];
      KeepPresentNoDup(init, cols);
      KeepPresentMembers(init, cols);
      var k := KeepPresent(init, cols);
      forall i | 0 <= i < |k| ensures IdOf(k[i]) != IdOf(x) {
        assert k[i] in k;
        var m :| 0 <= m < |init| && init[m] == k[i];
        assert s[m] == k[i];
      }
    }
  }

  lemma {:induction false} KeepPresentAll(s: seq<Field>, cols: seq<Column>)
    requires Ids(s) <= ColumnIds(cols)
    ensures KeepPresent(s, cols) == s
  {
    if |s| > 0 {
      var init, x := s[..|s| - 1], s[|s| - 1];
      assert s == init + [x];
      assert x in s;
      IdsAppend(init, x);
      KeepPresentAll(init, cols);
    }
  }

  lemma {:induction false} KeepPresentRepointed(r: seq<Field>, s: seq<Field>, cols: seq<Column>)
    requires Repointed(r, s)
    ensures Repointed(KeepPresent(r, cols), KeepPresent(s, cols))
  {
    if |s| > 0 {
      KeepPresentRepointed(r[..|r| - 1], s[..|s| - 1], cols);
    }
  }

  lemma MergedBound(r: seq<Field>)
    requires AllBound(r)
    ensures forall g :: g in r ==> g.column.Some?
  {
    forall g | g in r ensures g.column.Some? {
      var i :| 0 <= i < |r| && r[i] == g;
    }
  }

  // ---------------------------------------------------------------------------
  // What refresh guarantees about the available list

  /** After refresh the available ids are exactly the new columns' ids. */
  lemma RefreshFieldsIds(s: seq<Field>, cols: seq<Column>)
    ensures Ids(RefreshFields(s, cols)) == ColumnIds(cols)
  {
    var m := Merge(s, cols);
    MergeIds(s, cols);
    KeepPresentMembers(m, cols);
    forall id | id in ColumnIds(cols) ensures id in Ids(RefreshFields(s, cols)) {
      var f :| f in m && IdOf(f) == id;
      assert f in RefreshFields(s, cols);
    }
  }

  /** If refresh appended at least one column, the available list ends up sorted by id. */
  lemma RefreshFieldsSorted(s: seq<Field>, cols: seq<Column>)
    requires exists c :: c in cols && c.id !in Ids(s)
    ensures SortedById(RefreshFields(s, cols))
  {
    MergeSortedIfAppended(s, cols);
    KeepPresentSorted(Merge(s, cols), cols);
  }

  /** If refresh appended nothing, it keeps the surviving entries in their old order, only re-pointed. */
  lemma RefreshFieldsKeepOrder(s: seq<Field>, cols: seq<Column>)
    requires ColumnIds(cols) <= Ids(s)
    ensures Repointed(RefreshFields(s, cols), KeepPresent(s, cols))
  {
    MergeRepointsOnly(s, cols);
    KeepPresentRepointed(Merge(s, cols), s, cols);
  }

  /** An entry whose id is among the new columns is kept, with only its column replaced by one of the same id. */
  lemma RefreshFieldsKeepsSurvivors(s: seq<Field>, cols: seq<Column>, f: Field)
    requires f in s && IdOf(f) in ColumnIds(cols)
    ensures Survives(f, RefreshFields(s, cols))
  {
    assert f == f.(column := f.column);
    MergeKeepsEntries(s, cols, f);
    var m := Merge(s, cols);
    var g :| g in m && IdOf(g) == IdOf(f) && g == f.(column := g.column);
    KeepPresentMembers(m, cols);
    assert g in RefreshFields(s, cols);
  }

  /** A list without duplicate ids stays so, and every surviving entry points at one of the new columns. */
  lemma RefreshFieldsNoDupPointsInto(s: seq<Field>, cols: seq<Column>)
    requires NoDupIds(s)
    ensures NoDupIds(RefreshFields(s, cols))
    ensures forall g :: g in RefreshFields(s, cols) ==> g.column.Some? && g.column.value in cols
  {
    var m := Merge(s, cols);
    MergeNoDupPointsInto(s, cols);
    KeepPresentNoDup(m, cols);
    KeepPresentMembers(m, cols);
  }

  lemma RefreshFieldsBound(s: seq<Field>, cols: seq<Column>)
    requires AllBound(s)
    ensures AllBound(RefreshFields(s, cols))
  {
    var m := Merge(s, cols);
    MergeBound(s, cols);
    MergedBound(m);
    KeepPresentMembers(m, cols);
    var r := RefreshFields(s, cols);
    forall i | 0 <= i < |r| ensures r[i].column.Some? {
      assert r[i] in r;
    }
  }

  /** Merging the columns again into a list that already points at them changes nothing. */
  lemma {:induction false} MergeFixed(s: seq<Field>, cols: seq<Column>, n: nat)
    requires n <= |cols| && DistinctIds(cols)
    requires ColumnIds(cols) <= Ids(s)
    requires forall g :: g in s ==> g.column.Some? && g.column.value in cols
    ensures Merge(s, cols[..n]) == s
  {
    if n > 0 {
      MergeFixed(s, cols, n - 1);
      MergeSnoc(s, cols, n - 1);
      var lc := cols[n - 1];
      assert lc.id in ColumnIds(cols) by { assert lc in cols; }
      var found := FindById(s, lc.id);
      var k := found.value;
      assert s[k] in s;
      var c := s[k].column.value;
      var i :| 0 <= i < |cols| && cols[i] == c;
      assert c.id == lc.id;
      assert i == n - 1;
      assert s[k].(column := Some(lc)) == s[k];
      assert MergeOne(s, lc) == s;
    }
  }

  /** Refreshing twice with the same columns leaves the available list as the first refresh left it. */
  lemma RefreshFieldsIdempotent(s: seq<Field>, cols: seq<Column>)
    requires NoDupIds(s) && DistinctIds(cols)
    ensures RefreshFields(RefreshFields(s, cols), cols) == RefreshFields(s, cols)
  {
    var a := RefreshFields(s, cols);
    RefreshFieldsIds(s, cols);
    RefreshFieldsNoDupPointsInto(s, cols);
    MergeFixed(a, cols, |cols|);
    assert cols[..|cols|] == cols;
    KeepPresentAll(a, cols);
  }
}
