/**
 * Field entries, as held by the workspace's available and in-play lists,
 * and the ways the workspace builds them.
 */
module Fields {
  import opened Wrappers
  import opened Metadata

  /**
   * A field entry: its row number (None when never set), field name,
   * display name (None when never set) and the column it stands for (None
   * when the name lookup that produced it found no column).
   */
  datatype Field = Field(rowNum: Option<nat>, fieldName: string, displayName: Option<string>, column: Option<Column>)

  /**
   * The id of the entry's column. An entry without a column is given the
   * empty id; the workspace never holds such an entry in its available list.
   */
  function IdOf(f: Field): string
  {
    if f.column.Some? then f.column.value.id else ""
  }

  function Ids(s: seq<Field>): set<string>
  {
    set f | f in s :: IdOf(f)
  }

  /** Every entry has a column. */
  predicate AllBound(s: seq<Field>)
  {
    forall i :: 0 <= i < |s| ==> s[i].column.Some?
  }

  /** No two entries share a column id. */
  predicate NoDupIds(s: seq<Field>)
  {
    forall i, j :: 0 <= i < j < |s| ==> IdOf(s[i]) != IdOf(s[j])
  }

  /** The available entry setDomain makes for a table column: physical name as field name, logical name as display name. */
  function AvailableFieldOf(c: Column): Field
  {
    Field(None, c.physicalName, Some(c.name), Some(c))
  }

  /** The in-play entry setDomain makes for a cube measure; the measure's own name is overwritten by the physical column name. */
  function MeasureFieldOf(m: OlapMeasure): Field
  {
    Field(None, m.column.physicalName, Some(m.column.name), Some(m.column))
  }

  function CubeFields(cube: OlapCube): seq<Field>
  {
    seq(|cube.measures|, k requires 0 <= k < |cube.measures| => MeasureFieldOf(cube.measures[k]))
  }

  /** One entry per measure, cube after cube, measures in order. */
  function MeasureFields(cubes: seq<OlapCube>): seq<Field>
  {
    if |cubes| == 0 then [] else MeasureFields(cubes[..|cubes| - 1]) + CubeFields(cubes[|cubes| - 1])
  }

  /** The number of measures of all cubes, counted from the front. */
  function MeasureCount(cubes: seq<OlapCube>): nat
  {
    if |cubes| == 0 then 0 else |cubes[0].measures| + MeasureCount(cubes[1..])
  }

  lemma {:induction false} MeasureFieldsLength(cubes: seq<OlapCube>)
    ensures |MeasureFields(cubes)| == MeasureCount(cubes)
  {
    if |cubes| > 0 {
      MeasureFieldsLength(cubes[..|cubes| - 1]);
      MeasureCountSnoc(cubes[..|cubes| - 1], cubes[|cubes| - 1]);
      assert cubes[..|cubes| - 1] + [cubes[|cubes| - 1]] == cubes;
    }
  }

  lemma {:induction false} MeasureCountSnoc(cubes: seq<OlapCube>, c: OlapCube)
    ensures MeasureCount(cubes + [c]) == MeasureCount(cubes) + |c.measures|
  {
    if |cubes| > 0 {
      assert (cubes + [c])[1..] == cubes[1..] + [c];
      MeasureCountSnoc(cubes[1..], c);
    }
  }

  /** Every entry MeasureFields makes comes from a measure of one of the cubes. */
  lemma {:induction false} MeasureFieldsFromMeasures(cubes: seq<OlapCube>, f: Field)
    requires f in MeasureFields(cubes)
    ensures exists i, k :: 0 <= i < |cubes| && 0 <= k < |cubes[i].measures| && f == MeasureFieldOf(cubes[i].measures[k])
  {
    var n := |cubes| - 1;
    if f in MeasureFields(cubes[..n]) {
      MeasureFieldsFromMeasures(cubes[..n], f);
      var i, k :| 0 <= i < n && 0 <= k < |cubes[..n][i].measures| && f == MeasureFieldOf(cubes[..n][i].measures[k]);
      assert cubes[i] == cubes[..n][i];
    } else {
      var k :| 0 <= k < |CubeFields(cubes[n])| && CubeFields(cubes[n])[k] == f;
      assert f == MeasureFieldOf(cubes[n].measures[k]);
    }
  }

  /** What List.remove(Object) does: drop the first entry equal to `x`, keeping the others in order. */
  function RemoveFirst(s: seq<Field>, x: Field): (r: seq<Field>)
    ensures multiset(r) == multiset(s) - multiset{x}
  {
    if |s| == 0 then []
    else
      assert s == [s[0]] + s[1..];
      if s[0] == x then s[1..]
      else [s[0]] + RemoveFirst(s[1..], x)
  }

  /** RemoveFirst leaves a list that does not hold `x` as it is. */
  lemma {:induction false} RemoveFirstAbsent(s: seq<Field>, x: Field)
    requires x !in s
    ensures RemoveFirst(s, x) == s
  {
    if |s| > 0 {
      assert x !in s[1..];
      RemoveFirstAbsent(s[1..], x);
    }
  }

  /** RemoveFirst cuts out the first occurrence of `x` and nothing else. */
  lemma {:induction false} RemoveFirstCutsFirst(s: seq<Field>, x: Field, i: nat)
    requires i < |s| && s[i] == x && x !in s[..i]
    ensures RemoveFirst(s, x) == s[..i] + s[i + 1..]
  {
    if i > 0 {
      assert s[0] == s[..i][0];
      assert s[1..][..i - 1] == s[1..i];
      assert x !in s[1..][..i - 1];
      RemoveFirstCutsFirst(s[1..], x, i - 1);
      assert s[..i] == [s[0]] + s[1..][..i - 1];
      assert s[i + 1..] == s[1..][i..];
    }
  }
}
