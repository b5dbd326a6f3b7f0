/**
 * The modeler's in-memory workspace: the available fields (one per column
 * of the source table), the fields in play (the ordered selection), and the
 * dimension tree, together with the model name, the dirty flag and the
 * domain the workspace was last given.
 */
module ModelerWorkspace {
  import opened Wrappers
  import opened Metadata
  import opened Fields
  import opened IdOrder
  import opened Reconcile
  import opened Tree

  /** Running refresh a second time with the same columns changes neither the available fields nor the tree. */
  lemma RefreshTwiceChangesNothing(avail: seq<Field>, dims: seq<Dimension>, cols: seq<Column>)
    requires NoDupIds(avail) && DistinctIds(cols)
    ensures var avail1, dims1 := RefreshFields(avail, cols), PruneTree(dims, ColumnIds(cols));
      RefreshFields(avail1, cols) == avail1 && PruneTree(dims1, ColumnIds(cols)) == dims1
  {
    RefreshFieldsIdempotent(avail, cols);
    PruneTreeIdempotent(dims, ColumnIds(cols));
  }

  class Workspace {
    var inPlayFields: seq<Field>
    var dimensions: seq<Dimension>
    var availableFields: seq<Field>
    var modelName: Option<string>
    var domain: Option<Domain>
    var dirty: bool

    /** Every available entry has a column: setDomain and refresh fill the list only from columns. */
    ghost predicate Valid()
      reads this
    {
      AllBound(availableFields)
    }

    constructor ()
      ensures Valid()
      ensures inPlayFields == [] && dimensions == [] && availableFields == []
      ensures modelName == None && domain == None && !dirty
    {
      inPlayFields, dimensions, availableFields := [], [], [];
      modelName, domain, dirty := None, None, false;
    }

    method SetModelName(name: string)
      modifies this`modelName, this`dirty
      ensures modelName == Some(name) && dirty
    {
      modelName := Some(name);
      SetDirty(true);
    }

    method SetDirty(b: bool)
      modifies this`dirty
      ensures dirty == b
    {
      dirty := b;
    }

    /** Counts the levels of the tree, dimension by dimension and hierarchy by hierarchy. */
    method GetNumberLevels() returns (v: nat)
      ensures v == LevelCount(dimensions)
    {
      v := 0;
      var i := 0;
      while i < |dimensions|
        invariant 0 <= i <= |dimensions|
        invariant v == LevelCount(dimensions[..i])
      {
        var hs := dimensions[i].hierarchies;
        var j := 0;
        while j < |hs|
          invariant 0 <= j <= |hs|
          invariant v == LevelCount(dimensions[..i]) + HierarchiesLevels(hs[..j])
        {
          var k := 0;
          while k < |hs[j].levels|
            invariant 0 <= k <= |hs[j].levels|
            invariant v == LevelCount(dimensions[..i]) + HierarchiesLevels(hs[..j]) + k
          {
            v := v + 1;
            k := k + 1;
          }
          assert hs[..j + 1][..j] == hs[..j];
          j := j + 1;
        }
        assert hs[..|hs|] == hs;
        assert dimensions[..i + 1][..i] == dimensions[..i];
        i := i + 1;
      }
      assert dimensions[..|dimensions|] == dimensions;
    }

    /** The first column of the domain's table whose name is `id`, or None. */
    method FindLogicalColumn(id: string) returns (col: Option<Column>)
      requires domain.Some?
      ensures col == Lookup(domain.value.columns, id)
    {
      var cols := domain.value.columns;
      col := None;
      var i := 0;
      while i < |cols|
        invariant 0 <= i <= |cols|
        invariant forall j :: 0 <= j < i ==> cols[j].name != id
      {
        if cols[i].name == id {
          col := Some(cols[i]);
          break;
        }
        i := i + 1;
      }
    }

    /** Appends an entry for the column named `item`, numbered one past the current length. */
    method AddFieldIntoPlay(item: string)
      requires domain.Some?
      modifies this`inPlayFields
      ensures inPlayFields ==
        old(inPlayFields) + [Field(Some(|old(inPlayFields)| + 1), item, Some(item), Lookup(domain.value.columns, item))]
    {
      var col := FindLogicalColumn(item);
      var meta := Field(Some(|inPlayFields| + 1), item, Some(item), col);
      inPlayFields := inPlayFields + [meta];
    }

    method RemoveFieldFromPlay(f: Field)
      modifies this`inPlayFields
      ensures inPlayFields == RemoveFirst(old(inPlayFields), f)
      ensures |inPlayFields| == if f in old(inPlayFields) then |old(inPlayFields)| - 1 else |old(inPlayFields)|
    {
      inPlayFields := RemoveFirst(inPlayFields, f);
      if f !in old(inPlayFields) {
        RemoveFirstAbsent(old(inPlayFields), f);
      } else {
        assert f in multiset(old(inPlayFields));
        assert |multiset(inPlayFields)| == |multiset(old(inPlayFields))| - 1;
      }
    }

    method SetFields(fields: seq<Field>)
      modifies this`inPlayFields
      ensures inPlayFields == fields
    {
      inPlayFields := fields;
    }

    method AddDimension(dim: Dimension)
      modifies this`dimensions
      ensures dimensions == old(dimensions) + [dim]
      ensures LevelCount(dimensions) == LevelCount(old(dimensions)) + DimensionLevels(dim)
    {
      LevelCountAppend(dimensions, dim);
      dimensions := dimensions + [dim];
    }

    /** Adds a dimension with one hierarchy and one level, all named `item`, the level on the column named `item`. */
    method AddNewDimension(item: string)
      requires domain.Some?
      modifies this`dimensions
      ensures dimensions == old(dimensions) + [SingleLevelDimension(item, Lookup(domain.value.columns, item))]
      ensures |dimensions| == |old(dimensions)| + 1
      ensures LevelCount(dimensions) == LevelCount(old(dimensions)) + 1
    {
      var col := FindLogicalColumn(item);
      var dimension := Dimension(item, [Hierarchy(item, [Level(item, col)])]);
      SingleLevelDimensionLevels(item, col);
      AddDimension(dimension);
    }

    /** Adds a level named `item` under the selected tree node; see Tree.Inserted. */
    method AddToHierarchy(sel: Selection, item: string)
      requires !sel.OtherItem? ==> domain.Some?
      modifies this`dimensions
      ensures sel.OtherItem? ==> dimensions == old(dimensions)
      ensures !sel.OtherItem? ==> dimensions == Inserted(old(dimensions), sel, item, Lookup(domain.value.columns, item))
      ensures Selected(old(dimensions), sel) ==> LevelCount(dimensions) == LevelCount(old(dimensions)) + 1
      ensures !Selected(old(dimensions), sel) ==> dimensions == old(dimensions)
    {
      if !sel.OtherItem? {
        InsertedCount(dimensions, sel, item, Lookup(domain.value.columns, item));
      }
      match sel
      case LevelNode(d, h, l) =>
        if d < |dimensions| && h < |dimensions[d].hierarchies| && l < |dimensions[d].hierarchies[h].levels| {
          var col := FindLogicalColumn(item);
          dimensions := AppendLevel(dimensions, d, h, Level(item, col));
        }
      case HierarchyNode(d, h) =>
        if d < |dimensions| && h < |dimensions[d].hierarchies| {
          var col := FindLogicalColumn(item);
          dimensions := AppendLevel(dimensions, d, h, Level(item, col));
        }
      case DimensionNode(d) =>
        if d < |dimensions| {
          var dim := dimensions[d];
          var hier: Hierarchy;
          if |dim.hierarchies| > 0 {
            hier := dim.hierarchies[0];
          } else {
            hier := Hierarchy(item, []);
          }
          var col := FindLogicalColumn(item);
          hier := hier.(levels := hier.levels + [Level(item, col)]);
          var hs := if |dim.hierarchies| > 0 then dim.hierarchies[0 := hier] else [hier];
          assert |dim.hierarchies| == 0 ==> hier == Hierarchy(item, [Level(item, col)]);
          dimensions := dimensions[d := dim.(hierarchies := hs)];
        }
      case OtherItem =>
    }

    /**
     * Reconciles the workspace with a newly generated column list: merges
     * the new columns into the available fields, drops the fields whose id
     * is gone, marks the workspace dirty, and removes from the tree every
     * level whose column id is no longer available.
     */
    method Refresh(newCols: seq<Column>)
      requires Valid() && AllLevelsBound(dimensions)
      modifies this`availableFields, this`dimensions, this`dirty
      ensures Valid() && dirty
      ensures availableFields == RefreshFields(old(availableFields), newCols)
      ensures Ids(availableFields) == ColumnIds(newCols)
      ensures dimensions == PruneTree(old(dimensions), ColumnIds(newCols))
    {
      MergeColumns(newCols);
      DropStaleFields(newCols);
      dirty := true;
      RefreshFieldsIds(old(availableFields), newCols);
      PruneLevels();
    }

    /** Refresh's first phase: for each new column, re-point the entry with its id or append one and re-sort. */
    method MergeColumns(newCols: seq<Column>)
      requires Valid()
      modifies this`availableFields
      ensures Valid()
      ensures availableFields == Merge(old(availableFields), newCols)
    {
      ghost var s0 := availableFields;
      var i := 0;
      while i < |newCols|
        invariant 0 <= i <= |newCols|
        invariant availableFields == Merge(s0, newCols[..i])
        invariant AllBound(availableFields)
      {
        var lc := newCols[i];
        ghost var prev := availableFields;
        MergeOneBound(prev, lc);
        MergeSnoc(s0, newCols, i);
        var found := IndexOfColumnId(lc.id);
        if found.Some? {
          var k := found.value;
          availableFields := availableFields[k := availableFields[k].(column := Some(lc))];
        } else {
          var fm := Field(None, lc.name, None, Some(lc));
          availableFields := SortById(availableFields + [fm]);
        }
        i := i + 1;
      }
      assert newCols[..|newCols|] == newCols;
    }

    /** The search inside refresh's first phase: the index of the first available entry with column id `id`. */
    method IndexOfColumnId(id: string) returns (r: Option<nat>)
      requires Valid()
      ensures r == FindById(availableFields, id)
    {
      r := None;
      var k := 0;
      while k < |availableFields|
        invariant 0 <= k <= |availableFields|
        invariant forall m :: 0 <= m < k ==> IdOf(availableFields[m]) != id
      {
        if availableFields[k].column.value.id == id {
          assert availableFields[k] in availableFields;
          r := Some(k);
          break;
        }
        k := k + 1;
      }
    }

    /** Refresh's second phase: drop the entries whose column id is not among the new columns. */
    method DropStaleFields(newCols: seq<Column>)
      requires Valid()
      modifies this`availableFields
      ensures Valid()
      ensures availableFields == KeepPresent(old(availableFields), newCols)
    {
      var kept: seq<Field> := [];
      var i := 0;
      while i < |availableFields|
        invariant 0 <= i <= |availableFields|
        invariant kept == KeepPresent(availableFields[..i], newCols)
      {
        var fm := availableFields[i];
        var present := false;
        var j := 0;
        while j < |newCols|
          invariant 0 <= j <= |newCols|
          invariant !present
          invariant forall m :: 0 <= m < j ==> newCols[m].id != IdOf(fm)
        {
          if newCols[j].id == fm.column.value.id {
            present := true;
            break;
          }
          j := j + 1;
        }
        if present {
          kept := kept + [fm];
        }
        assert availableFields[..i + 1][..i] == availableFields[..i];
        i := i + 1;
      }
      assert availableFields[..|availableFields|] == availableFields;
      KeepPresentMembers(availableFields, newCols);
      availableFields := kept;
      forall m | 0 <= m < |kept| ensures kept[m].column.Some? {
        assert kept[m] in kept;
      }
    }

    /** Refresh's last phase: remove each level whose column id no available entry has. */
    method PruneLevels()
      requires Valid() && AllLevelsBound(dimensions)
      modifies this`dimensions
      ensures dimensions == PruneTree(old(dimensions), Ids(availableFields))
    {
      ghost var ids := Ids(availableFields);
      ghost var ds0 := dimensions;
      var d := 0;
      while d < |dimensions|
        invariant 0 <= d <= |dimensions| && |dimensions| == |ds0|
        invariant forall m :: 0 <= m < d ==> dimensions[m] == PruneDimension(ds0[m], ids)
        invariant forall m :: d <= m < |ds0| ==> dimensions[m] == ds0[m]
      {
        var dim := dimensions[d];
        ghost var before := dimensions;
        var hs := dim.hierarchies;
        var h := 0;
        while h < |hs|
          invariant dimensions == before
          invariant 0 <= h <= |hs| && |hs| == |dim.hierarchies|
          invariant forall m :: 0 <= m < h ==> hs[m] == PruneHierarchy(dim.hierarchies[m], ids)
          invariant forall m :: h <= m < |hs| ==> hs[m] == dim.hierarchies[m]
        {
          var levels := hs[h].levels;
          var kept: seq<Level> := [];
          var l := 0;
          while l < |levels|
            invariant dimensions == before
            invariant 0 <= l <= |levels|
            invariant kept == KeepLevels(levels[..l], ids)
          {
            var lm := levels[l];
            assert lm == ds0[d].hierarchies[h].levels[l];
            var existingLmId := lm.column.value.id;
            var found := HasColumnId(existingLmId);
            if found {
              kept := kept + [lm];
            }
            assert levels[..l + 1][..l] == levels[..l];
            l := l + 1;
          }
          assert levels[..|levels|] == levels;
          hs := hs[h := hs[h].(levels := kept)];
          h := h + 1;
        }
        dimensions := dimensions[d := dim.(hierarchies := hs)];
        d := d + 1;
      }
    }

    /** The search inside refresh's last phase: whether some available entry has column id `id`. */
    method HasColumnId(id: string) returns (found: bool)
      requires Valid()
      ensures found <==> id in Ids(availableFields)
    {
      found := false;
      var k := 0;
      while k < |availableFields|
        invariant 0 <= k <= |availableFields|
        invariant forall m :: 0 <= m < k ==> IdOf(availableFields[m]) != id
      {
        if availableFields[k].column.value.id == id {
          assert availableFields[k] in availableFields;
          found := true;
          break;
        }
        k := k + 1;
      }
    }

    /**
     * Rebuilds the workspace from a domain: one available entry per table
     * column, the dimension tree from the OLAP dimensions, one in-play
     * entry per cube measure, and the model name from the first category.
     */
    method SetDomain(d: Domain)
      modifies this
      ensures Valid() && domain == Some(d)
      ensures |availableFields| == |d.columns|
      ensures forall i :: 0 <= i < |d.columns| ==> availableFields[i] == AvailableFieldOf(d.columns[i])
      ensures d.olapDimensions.None? ==> dimensions == []
      ensures d.olapDimensions.Some? ==>
        |dimensions| == |d.olapDimensions.value| &&
        forall i :: 0 <= i < |dimensions| ==> dimensions[i] == MirrorDimension(d.olapDimensions.value[i])
      ensures inPlayFields == if d.olapCubes.Some? then MeasureFields(d.olapCubes.value) else []
      ensures modelName == if |d.categories| > 0 then Some(d.categories[0]) else old(modelName)
      ensures dirty == (|d.categories| > 0 || old(dirty))
    {
      domain := Some(d);
      dimensions, inPlayFields, availableFields := [], [], [];

      var cols := d.columns;
      var avail: seq<Field> := [];
      for i := 0 to |cols|
        invariant |avail| == i
        invariant forall m :: 0 <= m < i ==> avail[m] == AvailableFieldOf(cols[m])
      {
        var c := cols[i];
        avail := avail + [Field(None, c.physicalName, Some(c.name), Some(c))];
      }
      availableFields := avail;

      if |d.categories| > 0 {
        SetModelName(d.categories[0]);
      }

      if d.olapDimensions.Some? {
        var ods := d.olapDimensions.value;
        var dims: seq<Dimension> := [];
        for i := 0 to |ods|
          invariant |dims| == i
          invariant forall m :: 0 <= m < i ==> dims[m] == MirrorDimension(ods[m])
        {
          var od := ods[i];
          var hs: seq<Hierarchy> := [];
          for j := 0 to |od.hierarchies|
            invariant |hs| == j
            invariant forall m :: 0 <= m < j ==> hs[m] == MirrorHierarchy(od.hierarchies[m])
          {
            var oh := od.hierarchies[j];
            var ls: seq<Level> := [];
            for k := 0 to |oh.levels|
              invariant |ls| == k
              invariant forall m :: 0 <= m < k ==> ls[m] == MirrorLevel(oh.levels[m])
            {
              var ol := oh.levels[k];
              ls := ls + [Level(ol.name, ol.referenceColumn)];
            }
            hs := hs + [Hierarchy(oh.name, ls)];
          }
          dims := dims + [Dimension(od.name, hs)];
        }
        dimensions := dims;
      }

      if d.olapCubes.Some? {
        var cubes := d.olapCubes.value;
        var fields: seq<Field> := [];
        for i := 0 to |cubes|
          invariant fields == MeasureFields(cubes[..i])
        {
          var ms := cubes[i].measures;
          for j := 0 to |ms|
            invariant fields == MeasureFields(cubes[..i]) + CubeFields(cubes[i])[..j]
          {
            var m := ms[j];
            fields := fields + [Field(None, m.column.physicalName, Some(m.column.name), Some(m.column))];
          }
          assert cubes[..i + 1][..i] == cubes[..i];
        }
        assert cubes[..|cubes|] == cubes;
        inPlayFields := fields;
      }
    }
  }
}
