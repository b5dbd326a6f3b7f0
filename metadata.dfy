/**
 * The parts of the external metadata model that the workspace reads. The
 * metadata library owns these objects; here each is a plain value holding
 * only what the workspace looks at.
 */
module Metadata {
  import opened Wrappers

  /** A logical column: its identifier, its (default-locale) name and the name of the physical column behind it. */
  datatype Column = Column(id: string, name: string, physicalName: string)

  /** An OLAP level of the domain; its reference column may be absent. */
  datatype OlapLevel = OlapLevel(name: string, referenceColumn: Option<Column>)

  datatype OlapHierarchy = OlapHierarchy(name: string, levels: seq<OlapLevel>)

  datatype OlapDimension = OlapDimension(name: string, hierarchies: seq<OlapHierarchy>)

  datatype OlapMeasure = OlapMeasure(name: string, column: Column)

  datatype OlapCube = OlapCube(measures: seq<OlapMeasure>)

  /**
   * What the workspace reads of a domain: the columns of the first logical
   * table of the first logical model, the ids of that model's categories,
   * and the model's "olap_dimensions" and "olap_cubes" properties (None when
   * the property is not set).
   */
  datatype Domain = Domain(
    columns: seq<Column>,
    categories: seq<string>,
    olapDimensions: Option<seq<OlapDimension>>,
    olapCubes: Option<seq<OlapCube>>)

  function ColumnIds(cols: seq<Column>): set<string>
  {
    set c | c in cols :: c.id
  }

  /** No two columns of the list share an identifier. */
  predicate DistinctIds(cols: seq<Column>)
  {
    forall i, j :: 0 <= i < j < |cols| ==> cols[i].id != cols[j].id
  }

  /** The first column of `cols` whose name is `name`, or None (the Java null) when there is none. */
  function Lookup(cols: seq<Column>, name: string): (r: Option<Column>)
    ensures r.Some? ==>
      exists i :: 0 <= i < |cols| && cols[i] == r.value && cols[i].name == name &&
        forall j :: 0 <= j < i ==> cols[j].name != name
    ensures r.None? <==> forall i :: 0 <= i < |cols| ==> cols[i].name != name
  {
    if |cols| == 0 then None
    else if cols[0].name == name then Some(cols[0])
    else
      Lookup(cols[1..], name)
  }
}
