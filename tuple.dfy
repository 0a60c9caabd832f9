/**
 * A row: a map from column name to value plus the name of the
 * clustering-key column. Values are abstracted to `int`.
 * The datatype constructor is the source's constructor: it stores the
 * key name and the map as given and checks nothing.
 */
module Tuples {
  import opened Common

  datatype Tuple = Tuple(clusterKeyName: string, colValues: map<string, int>)

  /** A tuple that holds a value under its own clustering-key column. */
  type KeyedTuple = t: Tuple | t.clusterKeyName in t.colValues
    witness Tuple("id", map["id" := 0])

  /** The second argument of `compareTo(Object)`: another tuple or a raw clustering-key value. */
  datatype Operand = TupleArg(t: KeyedTuple) | KeyArg(k: int)

  /** Column name under which `createInstance` stores the probe's value. */
  const ProbeKeyName: string := "whateverKey"

  /** `getColValue`: `Hashtable.get`, null when the column is absent. */
  function GetColValue(t: Tuple, colName: string): (r: Option<int>)
    ensures r.Some? <==> colName in t.colValues
    ensures r.Some? ==> r.value == t.colValues[colName]
  {
    if colName in t.colValues then Some(t.colValues[colName]) else None
  }

  /** `getClusterKeyValue`: the value stored under the clustering-key column. */
  function GetClusterKeyValue(t: Tuple): (r: Option<int>)
    ensures r.Some? <==> t.clusterKeyName in t.colValues
    ensures r.Some? ==> r.value == t.colValues[t.clusterKeyName]
  {
    GetColValue(t, t.clusterKeyName)
  }

  /** The clustering-key value of a tuple known to hold one. */
  function Key(t: KeyedTuple): int
  {
    t.colValues[t.clusterKeyName]
  }

  /** The value `compareTo(Object)` compares against. */
  function OperandKey(o: Operand): int
  {
    match o
    case TupleArg(u) => Key(u)
    case KeyArg(k) => k
  }

  /**
   * `compareTo(Object)`: a tuple is compared by its clustering-key value
   * with the other tuple's clustering-key value, or with the raw value.
   */
  function CompareTo(t: KeyedTuple, o: Operand): (r: int)
    ensures r < 0 <==> Key(t) < OperandKey(o)
    ensures r == 0 <==> Key(t) == OperandKey(o)
    ensures r > 0 <==> Key(t) > OperandKey(o)
  {
    match o
    case TupleArg(u) => CompareValues(GetClusterKeyValue(t).value, GetClusterKeyValue(u).value)
    case KeyArg(k) => CompareValues(GetClusterKeyValue(t).value, k)
  }

  /**
   * `compareTo(Tuple, String)`: compares the values of one column; a
   * missing value is a null that `compareTo` dereferences.
   */
  function CompareToOn(t: Tuple, o: Tuple, colName: string): (r: Outcome<int>)
    ensures r.Ok? <==> colName in t.colValues && colName in o.colValues
    ensures r.Err? ==> r.error == NullPointer
    ensures r.Ok? ==> (r.value < 0 <==> t.colValues[colName] < o.colValues[colName])
    ensures r.Ok? ==> (r.value == 0 <==> t.colValues[colName] == o.colValues[colName])
    ensures r.Ok? ==> (r.value > 0 <==> t.colValues[colName] > o.colValues[colName])
  {
    match (GetColValue(t, colName), GetColValue(o, colName))
    case (Some(x), Some(y)) => Ok(CompareValues(x, y))
    case _ => Err(NullPointer)
  }

  /** `createInstance`: a probe tuple holding only a clustering-key value. */
  function CreateInstance(v: int): (t: KeyedTuple)
    ensures GetClusterKeyValue(t) == Some(v)
    ensures t.colValues.Keys == {t.clusterKeyName}
    ensures t.clusterKeyName == ProbeKeyName
  {
    Tuple(ProbeKeyName, map[ProbeKeyName := v])
  }

  /** Comparing two tuples looks at nothing but their clustering-key values. */
  lemma CompareTuplesOnlyByKey(t1: KeyedTuple, u1: KeyedTuple, t2: KeyedTuple, u2: KeyedTuple)
    requires Key(t1) == Key(t2) && Key(u1) == Key(u2)
    ensures CompareTo(t1, TupleArg(u1)) == CompareTo(t2, TupleArg(u2))
  {
  }

  /** Comparing against the probe of `createInstance(v)` is comparing against `v`. */
  lemma ProbeComparesAsKey(t: KeyedTuple, v: int)
    ensures CompareTo(t, TupleArg(CreateInstance(v))) == CompareTo(t, KeyArg(v))
  {
  }

  /** `compareTo(o, colName)` depends on nothing but the two values of that column. */
  lemma CompareToOnOnlyByColumn(t1: Tuple, o1: Tuple, t2: Tuple, o2: Tuple, colName: string)
    requires GetColValue(t1, colName) == GetColValue(t2, colName)
    requires GetColValue(o1, colName) == GetColValue(o2, colName)
    ensures CompareToOn(t1, o1, colName) == CompareToOn(t2, o2, colName)
  {
  }
}
