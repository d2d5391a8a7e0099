/**
 * The drain of Driver10.readFromTitanStoreIntoCassandra: every vertex is
 * scanned in order, and each one that yields a row has it inserted through
 * the Cassandra session (persistDataToCassandra). An exception ends the drain
 * and leaves the rows already inserted in place.
 */
module Drain {
  import opened Wrappers
  import opened Failures
  import opened JavaInt
  import opened Extraction

  /** The rows inserted, in order, and the exception that ended the drain, if any. */
  datatype Drained = Drained(written: seq<Row>, thrown: Option<Exception>)

  /**
   * What the session does with an INSERT: `open` is false when props.session
   * is null, and session.execute throws for the rows in `rejected`.
   */
  datatype Sink = Sink(open: bool, rejected: set<Row>)

  /**
   * What one vertex leads to: its row, nothing, or an exception. With a null
   * session the insert throws NullPointerException (line 313); a rejected
   * insert throws from session.execute, and nothing catches either.
   */
  function VertexOutcome(v: Vertex, sink: Sink): (r: Result<Option<Row>, Exception>)
    ensures r.Ok? && r.value.Some? ==> Extract(v) == r && sink.open && r.value.value !in sink.rejected
  {
    match Extract(v)
    case Err(e) => Err(e)
    case Ok(None) => Ok(None)
    case Ok(Some(row)) =>
      if !sink.open then Err(NullPointerException)
      else if row in sink.rejected then Err(InsertFailedException)
      else Ok(Some(row))
  }

  /** The loop over the first |vs| vertices. */
  function DrainAll(vs: seq<Vertex>, sink: Sink): (r: Drained)
    ensures |r.written| <= |vs|
    ensures r.written != [] ==> sink.open
    decreases |vs|
  {
    if vs == [] then Drained([], None)
    else
      var prev := DrainAll(vs[..|vs| - 1], sink);
      if prev.thrown.Some? then prev
      else match VertexOutcome(vs[|vs| - 1], sink)
        case Err(e) => Drained(prev.written, Some(e))
        case Ok(None) => prev
        case Ok(Some(row)) => Drained(prev.written + [row], None)
  }

  /** The whole method: with a null graph, props.graph.traversal() throws before any vertex. */
  function DrainFrom(hasGraph: bool, sink: Sink, vs: seq<Vertex>): (r: Drained)
    ensures !hasGraph ==> r.written == [] && r.thrown == Some(NullPointerException)
    ensures |r.written| <= |vs|
  {
    if hasGraph then DrainAll(vs, sink) else Drained([], Some(NullPointerException))
  }

  // ---------------------------------------------------------------------------
  // Reference definitions, read from the front.

  /** The rows of the given vertices, in vertex order, at most one per vertex. */
  function Emitted(vs: seq<Vertex>, sink: Sink): seq<Row>
    decreases |vs|
  {
    if vs == [] then []
    else
      (match VertexOutcome(vs[0], sink) case Ok(Some(row)) => [row] case _ => [])
      + Emitted(vs[1..], sink)
  }

  predicate AllNormal(vs: seq<Vertex>, sink: Sink)
  {
    forall i :: 0 <= i < |vs| ==> VertexOutcome(vs[i], sink).Ok?
  }

  lemma {:induction false} EmittedLength(vs: seq<Vertex>, sink: Sink)
    ensures |Emitted(vs, sink)| <= |vs|
    decreases |vs|
  {
    if vs != [] { EmittedLength(vs[1..], sink); }
  }

  lemma {:induction false} EmittedSnoc(vs: seq<Vertex>, v: Vertex, sink: Sink)
    ensures Emitted(vs + [v], sink) ==
      Emitted(vs, sink) + (match VertexOutcome(v, sink) case Ok(Some(row)) => [row] case _ => [])
    decreases |vs|
  {
    if vs == [] {
      assert [] + [v] == [v];
      assert [v][1..] == [];
    } else {
      assert (vs + [v])[0] == vs[0];
      assert (vs + [v])[1..] == vs[1..] + [v];
      EmittedSnoc(vs[1..], v, sink);
    }
  }

  lemma DrainAllSnoc(vs: seq<Vertex>, v: Vertex, sink: Sink)
    ensures DrainAll(vs + [v], sink) ==
      var prev := DrainAll(vs, sink);
      if prev.thrown.Some? then prev
      else match VertexOutcome(v, sink)
        case Err(e) => Drained(prev.written, Some(e))
        case Ok(None) => prev
        case Ok(Some(row)) => Drained(prev.written + [row], None)
  {
    assert (vs + [v])[..|vs|] == vs;
  }

  /**
   * The drain completes exactly when no vertex throws, and then it has written
   * the rows of all vertices in order. Otherwise it stops at the first vertex
   * that throws, with that vertex's exception, having written exactly the rows
   * of the vertices before it.
   */
  lemma {:induction false} DrainAllMeaning(vs: seq<Vertex>, sink: Sink)
    ensures DrainAll(vs, sink).thrown.None? <==> AllNormal(vs, sink)
    ensures DrainAll(vs, sink).thrown.None? ==> DrainAll(vs, sink).written == Emitted(vs, sink)
    ensures DrainAll(vs, sink).thrown.Some? ==>
      exists k :: 0 <= k < |vs| && AllNormal(vs[..k], sink)
        && VertexOutcome(vs[k], sink) == Err(DrainAll(vs, sink).thrown.value)
        && DrainAll(vs, sink).written == Emitted(vs[..k], sink)
    decreases |vs|
  {
    if vs != [] {
      var init := vs[..|vs| - 1];
      var v := vs[|vs| - 1];
      assert vs == init + [v];
      assert forall i :: 0 <= i < |init| ==> init[i] == vs[i];
      DrainAllMeaning(init, sink);
      DrainAllSnoc(init, v, sink);
      EmittedSnoc(init, v, sink);
      var prev := DrainAll(init, sink);
      if prev.thrown.Some? {
        var k :| 0 <= k < |init| && AllNormal(init[..k], sink)
          && VertexOutcome(init[k], sink) == Err(prev.thrown.value)
          && prev.written == Emitted(init[..k], sink);
        assert vs[..k] == init[..k];
      } else if VertexOutcome(v, sink).Err? {
        assert vs[..|vs| - 1] == init;
      }
    }
  }

  /** At most one row per vertex is written, whatever happens. */
  lemma AtMostOneRowPerVertex(vs: seq<Vertex>, sink: Sink)
    ensures |DrainAll(vs, sink).written| <= |vs|
  {
    DrainAllMeaning(vs, sink);
    var d := DrainAll(vs, sink);
    if d.thrown.Some? {
      var k :| 0 <= k < |vs| && d.written == Emitted(vs[..k], sink);
      EmittedLength(vs[..k], sink);
    } else {
      EmittedLength(vs, sink);
    }
  }

  /** Once a vertex has thrown, no later vertex is processed and nothing more is written. */
  lemma {:induction false} DrainIgnoresLaterVertices(vs: seq<Vertex>, more: seq<Vertex>, sink: Sink)
    requires DrainAll(vs, sink).thrown.Some?
    ensures DrainAll(vs + more, sink) == DrainAll(vs, sink)
    decreases |more|
  {
    if more == [] {
      assert vs + more == vs;
    } else {
      var m' := more[..|more| - 1];
      DrainIgnoresLaterVertices(vs, m', sink);
      assert vs + more == (vs + m') + [more[|more| - 1]];
      DrainAllSnoc(vs + m', more[|more| - 1], sink);
    }
  }

  /**
   * With a null session nothing is ever written. The drain completes only when
   * no vertex yields a row; otherwise it stops at the first vertex that does
   * not yield "nothing", which throws its own exception or, when it yields a
   * row, the NullPointerException of the insert.
   */
  lemma {:induction false} NoSessionWritesNothing(vs: seq<Vertex>, sink: Sink)
    requires !sink.open
    ensures DrainAll(vs, sink).written == []
    ensures DrainAll(vs, sink).thrown.None? <==> forall i :: 0 <= i < |vs| ==> Extract(vs[i]) == Ok(None)
    ensures DrainAll(vs, sink).thrown.Some? ==>
      exists k :: 0 <= k < |vs| && (forall i :: 0 <= i < k ==> Extract(vs[i]) == Ok(None))
        && (Extract(vs[k]) == Err(DrainAll(vs, sink).thrown.value)
            || (Extract(vs[k]).Ok? && Extract(vs[k]).value.Some?
                && DrainAll(vs, sink).thrown == Some(NullPointerException)))
    decreases |vs|
  {
    if vs != [] {
      NoSessionWritesNothing(vs[..|vs| - 1], sink);
    }
    DrainAllMeaning(vs, sink);
    var d := DrainAll(vs, sink);
    if d.thrown.Some? {
      var k :| 0 <= k < |vs| && AllNormal(vs[..k], sink)
        && VertexOutcome(vs[k], sink) == Err(d.thrown.value)
        && d.written == Emitted(vs[..k], sink);
      forall i | 0 <= i < k
        ensures Extract(vs[i]) == Ok(None)
      {
        assert vs[..k][i] == vs[i];
      }
    }
  }

  /** Scenario: {name: Alice, age: "30"} then {name: Bob} writes the single row (Alice, 30). */
  lemma AliceThenBob()
    ensures DrainAll([[Property("name", Str("Alice")), Property("age", Str("30"))], [Property("name", Str("Bob"))]], Sink(true, {}))
         == Drained([Row("Alice", 30)], None)
  {
    var alice := [Property("name", Str("Alice")), Property("age", Str("30"))];
    var bob := [Property("name", Str("Bob"))];
    AliceAndBob();
    DrainAllSnoc([], alice, Sink(true, {}));
    DrainAllSnoc([alice], bob, Sink(true, {}));
    assert [] + [alice] == [alice] && [alice] + [bob] == [alice, bob];
  }

  /** One more property of the vertex: the loop over m[..j + 1] is the loop over m[..j] and one step. */
  lemma ScanAllNext(m: Vertex, j: nat)
    requires j < |m|
    ensures ScanAll(m[..j + 1]) == match ScanAll(m[..j]) case Err(e) => Err(e) case Ok(acc) => Step(acc, m[j])
  {
    assert m[..j + 1] == m[..j] + [m[j]];
    ScanAllSnoc(m[..j], m[j]);
  }

  /** A property that throws at position j makes the whole vertex throw that exception. */
  lemma ScanFaultEndsVertex(m: Vertex, j: nat)
    requires j < |m| && ScanAll(m[..j + 1]).Err?
    ensures Extract(m) == Err(ScanAll(m[..j + 1]).error)
  {
    ScanAllStopsAtFault(m[..j + 1], m[j + 1..]);
    assert m[..j + 1] + m[j + 1..] == m;
  }

  /** A throwing vertex after a normal prefix ends the drain with that prefix's rows. */
  lemma VertexEndsDrain(vertices: seq<Vertex>, i: nat, sink: Sink, written: seq<Row>, e: Exception)
    requires i < |vertices|
    requires DrainAll(vertices[..i], sink) == Drained(written, None)
    requires VertexOutcome(vertices[i], sink) == Err(e)
    ensures DrainAll(vertices, sink) == Drained(written, Some(e))
    ensures |written| <= |vertices|
  {
    assert vertices[..i + 1] == vertices[..i] + [vertices[i]];
    DrainAllSnoc(vertices[..i], vertices[i], sink);
    DrainIgnoresLaterVertices(vertices[..i + 1], vertices[i + 1..], sink);
    assert vertices[..i + 1] + vertices[i + 1..] == vertices;
    AtMostOneRowPerVertex(vertices, sink);
  }

  /** A vertex whose properties scan normally, and whose row (if any) the session accepts, extends the drain. */
  lemma VertexContinuesDrain(vertices: seq<Vertex>, i: nat, sink: Sink, written: seq<Row>, acc: Scan)
    requires i < |vertices|
    requires DrainAll(vertices[..i], sink) == Drained(written, None)
    requires ScanAll(vertices[i]) == Ok(acc)
    requires acc.count > 1 ==> sink.open && Row(acc.name, acc.age) !in sink.rejected
    ensures DrainAll(vertices[..i + 1], sink)
         == Drained(written + (if acc.count > 1 then [Row(acc.name, acc.age)] else []), None)
  {
    assert vertices[..i + 1] == vertices[..i] + [vertices[i]];
    DrainAllSnoc(vertices[..i], vertices[i], sink);
  }

  /** A drain that completes has written the rows of all vertices, in order. */
  lemma DrainCompletes(vertices: seq<Vertex>, sink: Sink, written: seq<Row>)
    requires DrainAll(vertices, sink) == Drained(written, None)
    ensures written == Emitted(vertices, sink)
    ensures |written| <= |vertices|
  {
    DrainAllMeaning(vertices, sink);
    EmittedLength(vertices, sink);
  }

  // ---------------------------------------------------------------------------
  // The method itself.

  /**
   * The inner loop of readFromTitanStoreIntoCassandra over one vertex's
   * properties, with the locals thisName, thisAge and set (here `count`).
   * An exception from the (String) cast or from Integer.parseInt ends it.
   */
  method ScanVertexProperties(m: Vertex) returns (thisName: string, thisAge: int, count: nat, thrown: Option<Exception>)
    ensures thrown.None? ==> ScanAll(m) == Ok(Scan(thisName, thisAge, count))
    ensures thrown.None? ==> Extract(m) == Ok(if count > 1 then Some(Row(thisName, thisAge)) else None)
    ensures thrown.Some? ==> Extract(m) == Err(thrown.value)
  {
    thisName, thisAge, count := DefaultName, DefaultAge, 0;
    var j := 0;
    while j < |m|
      invariant 0 <= j <= |m|
      invariant ScanAll(m[..j]) == Ok(Scan(thisName, thisAge, count))
    {
      var vp := m[j];
      ScanAllNext(m, j);
      ghost var before := Scan(thisName, thisAge, count);
      if IsName(vp.key) {  // vp.key().equalsIgnoreCase("name")
        if !vp.value.Str? {
          thrown := Some(ClassCastException);
          assert NameStep(before, vp) == Err(ClassCastException);
          ScanFaultEndsVertex(m, j);
          return;
        }
        thisName := vp.value.s;
        count := count + 1;
        assert NameStep(before, vp) == Ok(Scan(thisName, thisAge, count));
      } else {
        assert NameStep(before, vp) == Ok(before);
      }
      ghost var named := Scan(thisName, thisAge, count);
      if IsAge(vp.key) {  // vp.key().equalsIgnoreCase("age")
        var parsed := ParseInt(Text(vp.value));
        if parsed.None? {
          thrown := Some(NumberFormatException(Text(vp.value)));
          assert AgeStep(named, vp) == Err(thrown.value);
          ScanFaultEndsVertex(m, j);
          return;
        }
        thisAge := parsed.value;
        count := count + 1;
        assert AgeStep(named, vp) == Ok(Scan(thisName, thisAge, count));
      } else {
        assert AgeStep(named, vp) == Ok(named);
      }
      j := j + 1;
    }
    assert m[..|m|] == m;
    thrown := None;
  }

  /**
   * readFromTitanStoreIntoCassandra: the outer loop over the filled vertex
   * list; for each vertex the inner property loop (ScanVertexProperties) and
   * the insert when set > 1.
   * `written` is the sequence of INSERT statements the session accepted.
   */
  method ReadFromTitanStoreIntoCassandra(hasGraph: bool, sink: Sink, vertices: seq<Vertex>)
    returns (written: seq<Row>, thrown: Option<Exception>)
    ensures Drained(written, thrown) == DrainFrom(hasGraph, sink, vertices)
    ensures |written| <= |vertices|
    ensures hasGraph && thrown.None? ==> written == Emitted(vertices, sink)
  {
    written := [];
    if !hasGraph {
      return [], Some(NullPointerException);
    }
    var i := 0;
    while i < |vertices|
      invariant 0 <= i <= |vertices|
      invariant DrainAll(vertices[..i], sink) == Drained(written, None)
    {
      var m := vertices[i];
      var thisName, thisAge, count, failure := ScanVertexProperties(m);
      if failure.Some? {
        thrown := failure;
        VertexEndsDrain(vertices, i, sink, written, thrown.value);
        return;
      }
      ghost var before := written;
      if count > 1 {
        if !sink.open || Row(thisName, thisAge) in sink.rejected {
          thrown := if !sink.open then Some(NullPointerException) else Some(InsertFailedException);
          VertexEndsDrain(vertices, i, sink, written, thrown.value);
          return;
        }
        written := written + [Row(thisName, thisAge)];
      }
      VertexContinuesDrain(vertices, i, sink, before, Scan(thisName, thisAge, count));
      i := i + 1;
    }
    assert vertices[..|vertices|] == vertices;
    thrown := None;
    DrainCompletes(vertices, sink, written);
  }
}
