/**
 * The workspace's dimension tree: dimensions hold hierarchies, hierarchies
 * hold levels, and each level refers to one column (or to none, when the
 * name lookup that made it found nothing).
 */
module Tree {
  import opened Wrappers
  import opened Metadata

  datatype Level = Level(name: string, column: Option<Column>)

  datatype Hierarchy = Hierarchy(name: string, levels: seq<Level>)

  datatype Dimension = Dimension(name: string, hierarchies: seq<Hierarchy>)

  // ---------------------------------------------------------------------------
  // Counting levels

  function HierarchiesLevels(hs: seq<Hierarchy>): nat
  {
    if |hs| == 0 then 0 else HierarchiesLevels(hs[..|hs| - 1]) + |hs[|hs| - 1].levels|
  }

  function DimensionLevels(d: Dimension): nat
  {
    HierarchiesLevels(d.hierarchies)
  }

  /** The number of levels in the whole tree. */
  function LevelCount(ds: seq<Dimension>): nat
  {
    if |ds| == 0 then 0 else LevelCount(ds[..|ds| - 1]) + DimensionLevels(ds[|ds| - 1])
  }

  lemma LevelCountAppend(ds: seq<Dimension>, d: Dimension)
    ensures LevelCount(ds + [d]) == LevelCount(ds) + DimensionLevels(d)
  {
    assert (ds + [d])[..|ds|] == ds;
  }

  /** Replacing one hierarchy changes the count by the difference of the two hierarchies' level counts. */
  lemma {:induction false} HierarchiesLevelsUpdate(hs: seq<Hierarchy>, j: nat, h: Hierarchy)
    requires j < |hs|
    ensures HierarchiesLevels(hs[j := h]) == HierarchiesLevels(hs) - |hs[j].levels| + |h.levels|
  {
    var n := |hs| - 1;
    if j < n {
      HierarchiesLevelsUpdate(hs[..n], j, h);
      assert hs[j := h][..n] == hs[..n][j := h];
    } else {
      assert hs[j := h][..n] == hs[..n];
    }
  }

  /** Replacing one dimension changes the count by the difference of the two dimensions' level counts. */
  lemma {:induction false} LevelCountUpdate(ds: seq<Dimension>, i: nat, d: Dimension)
    requires i < |ds|
    ensures LevelCount(ds[i := d]) == LevelCount(ds) - DimensionLevels(ds[i]) + DimensionLevels(d)
  {
    var n := |ds| - 1;
    if i < n {
      LevelCountUpdate(ds[..n], i, d);
      assert ds[i := d][..n] == ds[..n][i := d];
    } else {
      assert ds[i := d][..n] == ds[..n];
    }
  }

  // ---------------------------------------------------------------------------
  // Adding to the tree

  /** The dimension addDimension(Object) builds: one hierarchy holding one level, all three named `name`. */
  function SingleLevelDimension(name: string, col: Option<Column>): Dimension
  {
    Dimension(name, [Hierarchy(name, [Level(name, col)])])
  }

  lemma SingleLevelDimensionLevels(name: string, col: Option<Column>)
    ensures DimensionLevels(SingleLevelDimension(name, col)) == 1
  {
    var hs := [Hierarchy(name, [Level(name, col)])];
    assert hs[..|hs| - 1] == [];
    assert HierarchiesLevels(hs) == HierarchiesLevels([]) + |hs[0].levels|;
  }

  /**
   * The item selected in the tree view when a column is dropped on it: a
   * level, a hierarchy or a dimension, given by its position in the tree,
   * or anything else.
   */
  datatype Selection =
    | LevelNode(dim: nat, hier: nat, level: nat)
    | HierarchyNode(dim: nat, hier: nat)
    | DimensionNode(dim: nat)
    | OtherItem

  /** The selection names a node of the tree `ds`. */
  predicate Selected(ds: seq<Dimension>, sel: Selection)
  {
    match sel
    case LevelNode(d, h, l) => d < |ds| && h < |ds[d].hierarchies| && l < |ds[d].hierarchies[h].levels|
    case HierarchyNode(d, h) => d < |ds| && h < |ds[d].hierarchies|
    case DimensionNode(d) => d < |ds|
    case OtherItem => false
  }

  /** `ds` with `lv` appended to hierarchy `h` of dimension `d`. */
  function AppendLevel(ds: seq<Dimension>, d: nat, h: nat, lv: Level): seq<Dimension>
    requires d < |ds| && h < |ds[d].hierarchies|
  {
    var hs := ds[d].hierarchies;
    ds[d := ds[d].(hierarchies := hs[h := hs[h].(levels := hs[h].levels + [lv])])]
  }

  /**
   * The tree after a level named `name`, pointing at `col`, is added under
   * the selection: to a level's hierarchy, to a hierarchy, or to a
   * dimension's first hierarchy, which is created (also named `name`) when
   * the dimension has none. Anything else leaves the tree as it is.
   */
  function Inserted(ds: seq<Dimension>, sel: Selection, name: string, col: Option<Column>): seq<Dimension>
  {
    var lv := Level(name, col);
    if !Selected(ds, sel) then ds
    else match sel
      case LevelNode(d, h, _) => AppendLevel(ds, d, h, lv)
      case HierarchyNode(d, h) => AppendLevel(ds, d, h, lv)
      case DimensionNode(d) =>
        if |ds[d].hierarchies| > 0 then AppendLevel(ds, d, 0, lv)
        else ds[d := ds[d].(hierarchies := [Hierarchy(name, [lv])])]
  }

  lemma AppendLevelCount(ds: seq<Dimension>, d: nat, h: nat, lv: Level)
    requires d < |ds| && h < |ds[d].hierarchies|
    ensures LevelCount(AppendLevel(ds, d, h, lv)) == LevelCount(ds) + 1
  {
    var hs := ds[d].hierarchies;
    HierarchiesLevelsUpdate(hs, h, hs[h].(levels := hs[h].levels + [lv]));
    LevelCountUpdate(ds, d, ds[d].(hierarchies := hs[h := hs[h].(levels := hs[h].levels + [lv])]));
  }

  /** Adding under a node of the tree adds exactly one level; any other selection adds none. */
  lemma InsertedCount(ds: seq<Dimension>, sel: Selection, name: string, col: Option<Column>)
    ensures Selected(ds, sel) ==> LevelCount(Inserted(ds, sel, name, col)) == LevelCount(ds) + 1
    ensures !Selected(ds, sel) ==> Inserted(ds, sel, name, col) == ds
  {
    if Selected(ds, sel) {
      match sel
      case LevelNode(d, h, _) => AppendLevelCount(ds, d, h, Level(name, col));
      case HierarchyNode(d, h) => AppendLevelCount(ds, d, h, Level(name, col));
      case DimensionNode(d) =>
        if |ds[d].hierarchies| > 0 {
          AppendLevelCount(ds, d, 0, Level(name, col));
        } else {
          var nd := ds[d].(hierarchies := [Hierarchy(name, [Level(name, col)])]);
          assert nd.hierarchies[..0] == [];
          LevelCountUpdate(ds, d, nd);
        }
    }
  }

  /** The hierarchy, given by dimension and position, that receives the new level. */
  function Target(ds: seq<Dimension>, sel: Selection): (nat, nat)
    requires Selected(ds, sel)
  {
    match sel
    case LevelNode(d, h, _) => (d, h)
    case HierarchyNode(d, h) => (d, h)
    case DimensionNode(d) => (d, 0)
  }

  /**
   * Adding under a node appends the new level to the target hierarchy (a
   * fresh hierarchy named after the item when the selected dimension had
   * none) and changes no other dimension, hierarchy or level.
   */
  lemma InsertedPlacement(ds: seq<Dimension>, sel: Selection, name: string, col: Option<Column>)
    requires Selected(ds, sel)
    ensures var r := Inserted(ds, sel, name, col);
      var (d, h) := Target(ds, sel);
      |r| == |ds| && d < |r| && h < |r[d].hierarchies| &&
      (forall i :: 0 <= i < |ds| && i != d ==> r[i] == ds[i]) &&
      r[d].name == ds[d].name &&
      (if |ds[d].hierarchies| == 0
       then r[d].hierarchies == [Hierarchy(name, [Level(name, col)])]
       else |r[d].hierarchies| == |ds[d].hierarchies| &&
            (forall j :: 0 <= j < |ds[d].hierarchies| && j != h ==> r[d].hierarchies[j] == ds[d].hierarchies[j]) &&
            r[d].hierarchies[h] == ds[d].hierarchies[h].(levels := ds[d].hierarchies[h].levels + [Level(name, col)]))
  {
  }

  // ---------------------------------------------------------------------------
  // Pruning levels whose column has gone

  /** A level survives refresh when its column id is still available. */
  predicate KeepLevel(l: Level, ids: set<string>)
  {
    l.column.Some? && l.column.value.id in ids
  }

  function KeepLevels(ls: seq<Level>, ids: set<string>): seq<Level>
  {
    if |ls| == 0 then []
    else KeepLevels(ls[..|ls| - 1], ids) + (if KeepLevel(ls[|ls| - 1], ids) then [ls[|ls| - 1]] else [])
  }

  function PruneHierarchy(h: Hierarchy, ids: set<string>): Hierarchy
  {
    h.(levels := KeepLevels(h.levels, ids))
  }

  function PruneDimension(d: Dimension, ids: set<string>): Dimension
  {
    d.(hierarchies := seq(|d.hierarchies|, j requires 0 <= j < |d.hierarchies| => PruneHierarchy(d.hierarchies[j], ids)))
  }

  /** The tree with every level whose column id is not in `ids` removed; dimensions and hierarchies all stay. */
  function PruneTree(ds: seq<Dimension>, ids: set<string>): seq<Dimension>
  {
    seq(|ds|, i requires 0 <= i < |ds| => PruneDimension(ds[i], ids))
  }

  /** Every level of the tree has a column. */
  predicate AllLevelsBound(ds: seq<Dimension>)
  {
    forall d, h, l :: 0 <= d < |ds| && 0 <= h < |ds[d].hierarchies| && 0 <= l < |ds[d].hierarchies[h].levels| ==>
      ds[d].hierarchies[h].levels[l].column.Some?
  }

  lemma {:induction false} KeepLevelsMembers(ls: seq<Level>, ids: set<string>)
    ensures forall l :: l in KeepLevels(ls, ids) <==> l in ls && KeepLevel(l, ids)
  {
    if |ls| > 0 {
      KeepLevelsMembers(ls[..|ls| - 1], ids);
      assert ls == ls[..|ls| - 1] + [ls[|ls| - 1]];
    }
  }

  lemma {:induction false} KeepLevelsAll(ls: seq<Level>, ids: set<string>)
    requires forall l :: l in ls ==> KeepLevel(l, ids)
    ensures KeepLevels(ls, ids) == ls
  {
    if |ls| > 0 {
      assert ls == ls[..|ls| - 1] + [ls[|ls| - 1]];
      KeepLevelsAll(ls[..|ls| - 1], ids);
    }
  }

  /** After pruning, every level refers to a column whose id is in `ids`. */
  lemma PruneTreeConsistent(ds: seq<Dimension>, ids: set<string>)
    ensures var r := PruneTree(ds, ids);
      forall d, h, l :: 0 <= d < |r| && 0 <= h < |r[d].hierarchies| && 0 <= l < |r[d].hierarchies[h].levels| ==>
        KeepLevel(r[d].hierarchies[h].levels[l], ids)
  {
    var r := PruneTree(ds, ids);
    forall d, h, l | 0 <= d < |r| && 0 <= h < |r[d].hierarchies| && 0 <= l < |r[d].hierarchies[h].levels|
      ensures KeepLevel(r[d].hierarchies[h].levels[l], ids)
    {
      KeepLevelsMembers(ds[d].hierarchies[h].levels, ids);
      assert r[d].hierarchies[h].levels[l] in r[d].hierarchies[h].levels;
    }
  }

  /** Pruning keeps two kept levels in their relative order. */
  lemma {:induction false} KeepLevelsOrder(ls: seq<Level>, ids: set<string>, i: nat, j: nat)
    requires i < j < |ls| && KeepLevel(ls[i], ids) && KeepLevel(ls[j], ids)
    ensures exists p, q :: 0 <= p < q < |KeepLevels(ls, ids)| && KeepLevels(ls, ids)[p] == ls[i] && KeepLevels(ls, ids)[q] == ls[j]
  {
    var n := |ls| - 1;
    var front := KeepLevels(ls[..n], ids);
    var r := KeepLevels(ls, ids);
    assert r == front + (if KeepLevel(ls[n], ids) then [ls[n]] else []);
    if j < n {
      KeepLevelsOrder(ls[..n], ids, i, j);
      var p, q :| 0 <= p < q < |front| && front[p] == ls[..n][i] && front[q] == ls[..n][j];
      assert r[p] == front[p] && r[q] == front[q];
    } else {
      KeepLevelsMembers(ls[..n], ids);
      assert ls[i] == ls[..n][i];
      var p :| 0 <= p < |front| && front[p] == ls[i];
      assert r[p] == ls[i] && r[|front|] == ls[j];
    }
  }

  /**
   * Pruning keeps the shape of the tree: every dimension and hierarchy stays
   * with its name, each hierarchy keeps exactly its levels whose column id
   * is in `ids`, and a kept level stays in the pruned hierarchy.
   */
  lemma PruneTreeKeepsPresent(ds: seq<Dimension>, ids: set<string>, d: nat, h: nat, l: nat)
    requires d < |ds| && h < |ds[d].hierarchies| && l < |ds[d].hierarchies[h].levels|
    requires KeepLevel(ds[d].hierarchies[h].levels[l], ids)
    ensures var r := PruneTree(ds, ids);
      |r| == |ds| &&
      (forall e :: 0 <= e < |ds| ==> r[e].name == ds[e].name && |r[e].hierarchies| == |ds[e].hierarchies|) &&
      (forall e, g :: 0 <= e < |ds| && 0 <= g < |ds[e].hierarchies| ==>
        r[e].hierarchies[g].name == ds[e].hierarchies[g].name &&
        r[e].hierarchies[g].levels == KeepLevels(ds[e].hierarchies[g].levels, ids)) &&
      ds[d].hierarchies[h].levels[l] in r[d].hierarchies[h].levels
  {
    KeepLevelsMembers(ds[d].hierarchies[h].levels, ids);
  }

  /** Two levels of a hierarchy that both survive pruning keep their relative order. */
  lemma PruneTreeKeepsOrder(ds: seq<Dimension>, ids: set<string>, d: nat, h: nat, i: nat, j: nat)
    requires d < |ds| && h < |ds[d].hierarchies|
    requires i < j < |ds[d].hierarchies[h].levels|
    requires KeepLevel(ds[d].hierarchies[h].levels[i], ids) && KeepLevel(ds[d].hierarchies[h].levels[j], ids)
    ensures var kept := PruneTree(ds, ids)[d].hierarchies[h].levels;
      exists p, q :: 0 <= p < q < |kept| &&
        kept[p] == ds[d].hierarchies[h].levels[i] && kept[q] == ds[d].hierarchies[h].levels[j]
  {
    KeepLevelsOrder(ds[d].hierarchies[h].levels, ids, i, j);
  }

  /** Pruning a pruned tree against the same ids changes nothing. */
  lemma PruneTreeIdempotent(ds: seq<Dimension>, ids: set<string>)
    ensures PruneTree(PruneTree(ds, ids), ids) == PruneTree(ds, ids)
  {
    var r := PruneTree(ds, ids);
    forall d | 0 <= d < |r| ensures PruneDimension(r[d], ids) == r[d] {
      forall h | 0 <= h < |r[d].hierarchies|
        ensures PruneHierarchy(r[d].hierarchies[h], ids) == r[d].hierarchies[h]
      {
        KeepLevelsMembers(ds[d].hierarchies[h].levels, ids);
        KeepLevelsAll(r[d].hierarchies[h].levels, ids);
      }
    }
  }

  // ---------------------------------------------------------------------------
  // Rebuilding the tree from the domain's OLAP dimensions

  function MirrorLevel(ol: OlapLevel): Level
  {
    Level(ol.name, ol.referenceColumn)
  }

  function MirrorHierarchy(oh: OlapHierarchy): Hierarchy
  {
    Hierarchy(oh.name, seq(|oh.levels|, k requires 0 <= k < |oh.levels| => MirrorLevel(oh.levels[k])))
  }

  /** The dimension setDomain builds for an OLAP dimension: same name, its hierarchies and their levels in order. */
  function MirrorDimension(od: OlapDimension): Dimension
  {
    Dimension(od.name, seq(|od.hierarchies|, j requires 0 <= j < |od.hierarchies| => MirrorHierarchy(od.hierarchies[j])))
  }
}
