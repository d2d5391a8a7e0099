/**
 * Per-vertex record extraction, the body of the inner loop of
 * Driver10.readFromTitanStoreIntoCassandra: one pass over a vertex's
 * properties that tracks the last `name`, the last parsed `age` and how many
 * recognised properties were seen, and yields a row when that count exceeds 1.
 */
module Extraction {
  import opened Wrappers
  import opened Failures
  import opened JavaInt

  /** A property value: a java.lang.String, or another object known by its toString(). */
  datatype Value = Str(s: string) | Other(text: string)

  /** value.toString() */
  function Text(v: Value): string
  {
    match v
    case Str(s) => s
    case Other(t) => t
  }

  datatype Property = Property(key: string, value: Value)

  /** A vertex, as the ordered list of properties the traversal fills in. */
  type Vertex = seq<Property>

  /** One row of demo.alldata. */
  datatype Row = Row(name: string, age: int)

  /** The loop locals thisName, thisAge and set. */
  datatype Scan = Scan(name: string, age: int, count: nat)

  const DefaultName: string := "bogus"
  const DefaultAge: int := -1
  const Start: Scan := Scan(DefaultName, DefaultAge, 0)

  function Lower(c: char): char
  {
    if 'A' <= c <= 'Z' then (c as int + 32) as char else c
  }

  /** String.equalsIgnoreCase, with ASCII case folding. */
  predicate EqualsIgnoreCase(a: string, b: string)
    ensures a == b ==> EqualsIgnoreCase(a, b)
  {
    |a| == |b| && forall i :: 0 <= i < |a| ==> Lower(a[i]) == Lower(b[i])
  }

  predicate IsName(key: string) { EqualsIgnoreCase(key, "name") }

  predicate IsAge(key: string) { EqualsIgnoreCase(key, "age") }

  predicate Recognized(key: string) { IsName(key) || IsAge(key) }

  /** The `name` branch (lines 130-134): the (String) cast, then set++. */
  function NameStep(acc: Scan, p: Property): (r: Result<Scan, Exception>)
    ensures r.Err? ==> IsName(p.key) && r.error == ClassCastException
  {
    if !IsName(p.key) then Ok(acc)
    else if p.value.Str? then Ok(acc.(name := p.value.s, count := acc.count + 1))
    else Err(ClassCastException)
  }

  /** The `age` branch (lines 135-140): Integer.parseInt(value.toString()), then set++. */
  function AgeStep(acc: Scan, p: Property): (r: Result<Scan, Exception>)
    ensures r.Err? ==> IsAge(p.key) && r.error == NumberFormatException(Text(p.value))
  {
    if !IsAge(p.key) then Ok(acc)
    else match ParseInt(Text(p.value))
      case Some(n) => Ok(acc.(age := n, count := acc.count + 1))
      case None => Err(NumberFormatException(Text(p.value)))
  }

  /** One iteration of the property loop: the two `if` statements in order. */
  function Step(acc: Scan, p: Property): (r: Result<Scan, Exception>)
    ensures !Recognized(p.key) ==> r == Ok(acc)
    ensures r.Err? ==> r.error == ClassCastException || r.error == NumberFormatException(Text(p.value))
  {
    match NameStep(acc, p)
    case Err(e) => Err(e)
    case Ok(a) => AgeStep(a, p)
  }

  /** The loop over the first |ps| properties, starting from the initial locals. */
  function ScanAll(ps: seq<Property>): (r: Result<Scan, Exception>)
    ensures r.Ok? ==> r.value.count <= |ps|
    decreases |ps|
  {
    if ps == [] then Ok(Start)
    else match ScanAll(ps[..|ps| - 1])
      case Err(e) => Err(e)
      case Ok(acc) => Step(acc, ps[|ps| - 1])
  }

  /** What the loop over one vertex leads to: a row to insert, nothing, or an exception. */
  function Extract(ps: Vertex): (r: Result<Option<Row>, Exception>)
    ensures |ps| < 2 ==> r.Ok? ==> r.value.None?
  {
    match ScanAll(ps)
    case Err(e) => Err(e)
    case Ok(acc) => Ok(if acc.count > 1 then Some(Row(acc.name, acc.age)) else None)
  }

  // ---------------------------------------------------------------------------
  // Reference definitions, stated per property index rather than as a fold.

  /** The exception a single property raises, whatever was scanned before it. */
  function PropertyFault(p: Property): Option<Exception>
  {
    if IsName(p.key) && !p.value.Str? then Some(ClassCastException)
    else if IsAge(p.key) && ParseInt(Text(p.value)).None? then Some(NumberFormatException(Text(p.value)))
    else None
  }

  predicate NoFault(ps: seq<Property>)
  {
    forall i :: 0 <= i < |ps| ==> PropertyFault(ps[i]).None?
  }

  /** The positions of the recognised properties, duplicates included. */
  function RecognizedIndices(ps: seq<Property>): set<nat>
  {
    set i: nat | i < |ps| && Recognized(ps[i].key)
  }

  /** The position of the last property whose key satisfies the given test. */
  function LastWhere(ps: seq<Property>, isKey: string -> bool): (r: Option<nat>)
    ensures r.Some? ==> r.value < |ps| && isKey(ps[r.value].key)
    ensures r.Some? ==> forall j :: r.value < j < |ps| ==> !isKey(ps[j].key)
    ensures r.None? ==> forall j :: 0 <= j < |ps| ==> !isKey(ps[j].key)
    decreases |ps|
  {
    if ps == [] then None
    else if isKey(ps[|ps| - 1].key) then Some(|ps| - 1)
    else LastWhere(ps[..|ps| - 1], isKey)
  }

  /** The last `name` value, or "bogus" when there is none. */
  function ChosenName(ps: seq<Property>): string
  {
    match LastWhere(ps, IsName)
    case None => DefaultName
    case Some(i) => Text(ps[i].value)
  }

  /** The last `age` value parsed, or -1 when there is none. */
  function ChosenAge(ps: seq<Property>): int
  {
    match LastWhere(ps, IsAge)
    case None => DefaultAge
    case Some(i) => match ParseInt(Text(ps[i].value))
      case Some(n) => n
      case None => DefaultAge
  }

  // ---------------------------------------------------------------------------
  // The scan agrees with the reference definitions.

  lemma ScanAllSnoc(ps: seq<Property>, p: Property)
    ensures ScanAll(ps + [p]) == match ScanAll(ps) case Err(e) => Err(e) case Ok(acc) => Step(acc, p)
  {
    assert (ps + [p])[..|ps|] == ps;
  }

  /** A step fails exactly when the property on its own is faulty, with that exception. */
  lemma StepFault(acc: Scan, p: Property)
    ensures Step(acc, p).Err? <==> PropertyFault(p).Some?
    ensures Step(acc, p).Err? ==> PropertyFault(p) == Some(Step(acc, p).error)
  {
    assert !(IsName(p.key) && IsAge(p.key));
  }

  /** The scan succeeds exactly when no property is faulty; otherwise it fails with the first fault. */
  lemma {:induction false} ScanAllFault(ps: seq<Property>)
    ensures ScanAll(ps).Ok? <==> NoFault(ps)
    ensures ScanAll(ps).Err? ==>
      exists i :: 0 <= i < |ps| && PropertyFault(ps[i]) == Some(ScanAll(ps).error) && NoFault(ps[..i])
    decreases |ps|
  {
    if ps != [] {
      var init := ps[..|ps| - 1];
      var p := ps[|ps| - 1];
      assert ps == init + [p];
      ScanAllFault(init);
      ScanAllSnoc(init, p);
      assert forall i :: 0 <= i < |init| ==> init[i] == ps[i];
      match ScanAll(init)
      case Err(e) =>
        var i :| 0 <= i < |init| && PropertyFault(init[i]) == Some(e) && NoFault(init[..i]);
        assert ps[..i] == init[..i];
      case Ok(acc) =>
        StepFault(acc, p);
        if Step(acc, p).Err? {
          assert ps[..|ps| - 1] == init;
        }
    }
  }

  lemma RecognizedIndicesSnoc(ps: seq<Property>, p: Property)
    ensures |RecognizedIndices(ps + [p])| == |RecognizedIndices(ps)| + (if Recognized(p.key) then 1 else 0)
  {
    var q := ps + [p];
    assert forall i :: 0 <= i < |ps| ==> q[i] == ps[i];
    if Recognized(p.key) {
      assert RecognizedIndices(q) == RecognizedIndices(ps) + {|ps|};
    } else {
      assert RecognizedIndices(q) == RecognizedIndices(ps);
    }
  }

  /**
   * Without a faulty property the scan ends with the last-seen name, the
   * last-seen parsed age and the number of recognised occurrences.
   */
  lemma {:induction false} ScanAllValue(ps: seq<Property>)
    requires NoFault(ps)
    ensures ScanAll(ps) == Ok(Scan(ChosenName(ps), ChosenAge(ps), |RecognizedIndices(ps)|))
    decreases |ps|
  {
    if ps == [] {
      assert RecognizedIndices(ps) == {};
    } else {
      var init := ps[..|ps| - 1];
      var p := ps[|ps| - 1];
      assert ps == init + [p];
      assert forall i :: 0 <= i < |init| ==> init[i] == ps[i];
      ScanAllValue(init);
      ScanAllSnoc(init, p);
      RecognizedIndicesSnoc(init, p);
      assert PropertyFault(ps[|ps| - 1]).None?;
      assert !(IsName(p.key) && IsAge(p.key));
    }
  }

  // ---------------------------------------------------------------------------
  // What Extract yields, for every vertex.

  /** A row is emitted exactly when nothing is faulty and at least two recognised properties occur. */
  lemma ExtractEmits(ps: Vertex, row: Row)
    ensures Extract(ps) == Ok(Some(row)) <==>
      NoFault(ps) && |RecognizedIndices(ps)| >= 2 && row == Row(ChosenName(ps), ChosenAge(ps))
  {
    ScanAllFault(ps);
    if NoFault(ps) { ScanAllValue(ps); }
  }

  /** Zero or one recognised property, and nothing faulty: the vertex is skipped. */
  lemma ExtractSkips(ps: Vertex)
    ensures Extract(ps) == Ok(None) <==> NoFault(ps) && |RecognizedIndices(ps)| <= 1
  {
    ScanAllFault(ps);
    if NoFault(ps) { ScanAllValue(ps); }
  }

  /** The vertex throws exactly the exception of its first faulty property. */
  lemma ExtractFails(ps: Vertex, e: Exception)
    ensures Extract(ps) == Err(e) <==>
      exists i :: 0 <= i < |ps| && PropertyFault(ps[i]) == Some(e) && NoFault(ps[..i])
  {
    ScanAllFault(ps);
    if i :| 0 <= i < |ps| && PropertyFault(ps[i]) == Some(e) && NoFault(ps[..i]) {
      assert !NoFault(ps);
      var k :| 0 <= k < |ps| && PropertyFault(ps[k]) == Some(ScanAll(ps).error) && NoFault(ps[..k]);
    }
  }

  /** Inserting a property with an unrecognised key anywhere leaves the loop's result unchanged. */
  lemma {:induction false} ScanAllIgnoresUnrecognized(a: seq<Property>, p: Property, b: seq<Property>)
    requires !Recognized(p.key)
    ensures ScanAll(a + [p] + b) == ScanAll(a + b)
    decreases |b|
  {
    if b == [] {
      assert a + [p] + b == a + [p];
      assert a + b == a;
      ScanAllSnoc(a, p);
    } else {
      var b' := b[..|b| - 1];
      var q := b[|b| - 1];
      ScanAllIgnoresUnrecognized(a, p, b');
      assert a + [p] + b == (a + [p] + b') + [q];
      assert a + b == (a + b') + [q];
      ScanAllSnoc(a + [p] + b', q);
      ScanAllSnoc(a + b', q);
    }
  }

  /** Inserting a property with an unrecognised key anywhere changes nothing. */
  lemma ExtractIgnoresUnrecognized(a: seq<Property>, p: Property, b: seq<Property>)
    requires !Recognized(p.key)
    ensures ScanAll(a + [p] + b) == ScanAll(a + b)
    ensures Extract(a + [p] + b) == Extract(a + b)
  {
    ScanAllIgnoresUnrecognized(a, p, b);
  }

  /** Once a property throws, later properties are never looked at. */
  lemma {:induction false} ScanAllStopsAtFault(ps: seq<Property>, more: seq<Property>)
    requires ScanAll(ps).Err?
    ensures ScanAll(ps + more) == ScanAll(ps)
    decreases |more|
  {
    if more == [] {
      assert ps + more == ps;
    } else {
      var m' := more[..|more| - 1];
      ScanAllStopsAtFault(ps, m');
      assert ps + more == (ps + m') + [more[|more| - 1]];
      ScanAllSnoc(ps + m', more[|more| - 1]);
    }
  }

  // ---------------------------------------------------------------------------
  // Concrete vertices.

  /** Two `name` properties and no `age` still emit a row, with the last name and age -1. */
  lemma TwoNamesNoAge(first: string, second: string)
    ensures Extract([Property("name", Str(first)), Property("NAME", Str(second))]) == Ok(Some(Row(second, -1)))
  {
    var p0, p1 := Property("name", Str(first)), Property("NAME", Str(second));
    assert IsName("name") && IsName("NAME") && !IsAge("name") && !IsAge("NAME");
    ScanAllSnoc([], p0);
    ScanAllSnoc([p0], p1);
    assert [] + [p0] == [p0] && [p0] + [p1] == [p0, p1];
  }

  /** {name: Alice, age: "30"} emits (Alice, 30); {name: Bob} emits nothing. */
  lemma AliceAndBob()
    ensures Extract([Property("name", Str("Alice")), Property("age", Str("30"))]) == Ok(Some(Row("Alice", 30)))
    ensures Extract([Property("name", Str("Bob"))]) == Ok(None)
  {
    var p0, p1 := Property("name", Str("Alice")), Property("age", Str("30"));
    assert IsName("name") && !IsAge("name") && IsAge("age") && !IsName("age");
    ParseIntAgeExamples();
    ScanAllSnoc([], p0);
    ScanAllSnoc([p0], p1);
    assert [] + [p0] == [p0] && [p0] + [p1] == [p0, p1];
    var bob := Property("name", Str("Bob"));
    ScanAllSnoc([], bob);
    assert [] + [bob] == [bob];
  }

  /** An `age` of "thirty" throws, even after a valid name. */
  lemma MalformedAge(name: string)
    ensures Extract([Property("name", Str(name)), Property("Age", Str("thirty"))]) == Err(NumberFormatException("thirty"))
  {
    var p0, p1 := Property("name", Str(name)), Property("Age", Str("thirty"));
    assert IsName("name") && !IsAge("name") && IsAge("Age") && !IsName("Age");
    ParseIntWordExamples();
    ScanAllSnoc([], p0);
    ScanAllSnoc([p0], p1);
    assert [] + [p0] == [p0] && [p0] + [p1] == [p0, p1];
  }
}
