# Driver10: Titan-to-Cassandra record drain, modelled in Dafny

Driver10 is a one-shot batch job. It reads every vertex of a Titan graph and
takes a `name` and an `age` from each vertex's properties. It inserts a row
`(name, age)` into the Cassandra table `demo.alldata` for every vertex where
at least two recognised properties were seen. Then it reads the table back
and closes its connections.

The model covers:

- **Integer.parseInt** (`JavaInt`). An optional sign, then one or more ASCII
  digits, whose value fits in 32 bits. Anything else throws
  `NumberFormatException`, modelled as `None`. `Integer.toString` is included
  as its inverse.
- **Per-vertex extraction** (`Extraction`). This is one pass over the
  properties that updates the locals `thisName`, `thisAge` and `set`. Keys are
  compared with `equalsIgnoreCase`. Every occurrence of `name` or `age`
  overwrites the value and increments the counter, duplicates included. A
  `name` whose value is not a `String` throws `ClassCastException`. An `age`
  that does not parse throws `NumberFormatException`. The pass is a fold
  (`ScanAll`), and lemmas tie it to definitions stated per property index:
  - the first faulty property decides the exception;
  - the last `name` and the last `age` give the row's fields;
  - the number of recognised positions is the counter.
- **The drain** (`Drain`). `ReadFromTitanStoreIntoCassandra` is an imperative
  method with the source's vertex loop. For each vertex it calls
  `ScanVertexProperties`, which holds the source's inner property loop. Both
  loops are proved against folds: the property loop against `ScanAll`, and the
  whole method against the back-recursive specification `DrainFrom`. Lemmas then characterise that
  specification: rows appear in vertex order, at most one per vertex; the
  first exception ends the drain; the rows already inserted stay and no later
  vertex is looked at. A null graph throws before any vertex. A null session
  throws at the first insert, and so does an INSERT the store rejects.
- **Connection bookkeeping** (`Driver`). `PropsValues` is a class with
  nullable handle fields, and its connect and close methods set and clear
  them. Its `Valid()` predicate says that each field holds only the driver
  object of its own Java type, and every method keeps it. A ghost field `released` records the close calls issued, in order. The `cassport`
  default is modelled, and so is `doWork`'s fixed call order, which has no
  `finally`.

External calls are parameters (`Environment`). Each one either returns or
throws: the cluster builder, cluster metadata, the keyspace connect, Titan's
`open()`, each INSERT, the session's and the cluster's `close()` and the
read-back `SELECT`. The vertex list that the Gremlin traversals fill in is a
parameter too.

### Where the code falls short of its evident intent (the model follows the code)

- Every acquired handle is evidently meant to be released on every exit
  path. In fact the two close methods run only at the end of `doWork`, with
  no `try`/`finally`. When the drain or the read-back throws, every acquired
  handle stays open. Only `released == []` is guaranteed then
  (`Driver.DoWork`).
- Closing the session and closing the cluster look like independent steps,
  but `closeCassandraAll` puts both in one `try` block. A throw from
  `session.close()` therefore skips `cluster.close()`.
- One failed insert ends the drain. Nothing catches an exception from
  `session.execute`, so the rows already inserted stay and no later vertex
  is processed.
- `closeCassandraAll` is idempotent only after a call in which no close
  threw. A handle whose close threw stays non-null, so the next call issues
  that close again. `closeTitan` never nulls `graph`, so a second call always
  closes the graph again.
- When `getMetadata()` throws, the cluster handle has already been stored
  (line 205), and nothing ever closes it.

## Model

| member | source | states |
|---|---|---|
| `JavaInt.ParseInt` | src/main/java/com/example/Driver10.java:138 | an accepted string has a digit or a sign followed by more characters first, only digits after that, and a value in [-2^31, 2^31-1] |
| `JavaInt.ParseIntSignedDigits` | src/main/java/com/example/Driver10.java:138 | for every sign (none, `+`, `-`) and every non-empty digit string, parseInt returns the signed value exactly when it fits in 32 bits, and throws otherwise |
| `JavaInt.ParseIntRejects` | src/main/java/com/example/Driver10.java:138 | any character that is not a digit and not a leading sign followed by more characters makes parseInt throw |
| `JavaInt.ParseIntRejectsEmpty` | src/main/java/com/example/Driver10.java:138 | the empty string, `+` alone and `-` alone are rejected |
| `JavaInt.ParseIntToString` | src/main/java/com/example/Driver10.java:138 | round trip: parsing Integer.toString(n) gives back n for every 32-bit n |
| `JavaInt.ParseIntDefaultPort` | src/main/java/com/example/Driver10.java:168-169 | "9042" parses to 9042 |
| `JavaInt.ParseIntAgeExamples` | src/main/java/com/example/Driver10.java:138 | "30", "+30", "-30" and "007" parse to 30, 30, -30 and 7 |
| `JavaInt.ParseIntWordExamples` | src/main/java/com/example/Driver10.java:138 | "thirty", " 30" and "3 0" are rejected |
| `Extraction.EqualsIgnoreCase` | src/main/java/com/example/Driver10.java:130 | String.equalsIgnoreCase, folding ASCII letters only; its contract states that every key matches itself (which letters match is the definition itself) |
| `Extraction.NameStep` | src/main/java/com/example/Driver10.java:130-134 | the `name` branch: only a `name` key can throw, and what it throws is ClassCastException from the (String) cast |
| `Extraction.AgeStep` | src/main/java/com/example/Driver10.java:135-140 | the `age` branch: only an `age` key can throw, and what it throws is NumberFormatException carrying the value's text |
| `Extraction.Step` | src/main/java/com/example/Driver10.java:129-140 | one loop iteration: a property with an unrecognised key leaves the locals unchanged; the only exceptions are the cast's and parseInt's |
| `Extraction.ScanAll` | src/main/java/com/example/Driver10.java:126-141 | the property loop as a fold from ("bogus", -1, 0); the counter never exceeds the number of properties (its full meaning is `ScanAllFault` and `ScanAllValue`) |
| `Extraction.Extract` | src/main/java/com/example/Driver10.java:123-143 | what one vertex leads to; a vertex with fewer than two properties never yields a row (its full meaning is `ExtractEmits`, `ExtractSkips` and `ExtractFails`) |
| `Extraction.LastWhere` | src/main/java/com/example/Driver10.java:126-141 | the index found holds a matching key and no later property matches; no index means no property matches |
| `Extraction.StepFault` | src/main/java/com/example/Driver10.java:129-140 | one loop iteration throws exactly when that property alone is faulty (a non-String name, an unparsable age), and throws that exception |
| `Extraction.ScanAllFault` | src/main/java/com/example/Driver10.java:126-141 | the property loop finishes normally exactly when no property is faulty; otherwise it throws the exception of the first faulty property |
| `Extraction.ScanAllValue` | src/main/java/com/example/Driver10.java:123-141 | with no faulty property, the loop ends with the last-seen name (default "bogus"), the last-seen parsed age (default -1) and a counter equal to the number of recognised occurrences, duplicates included |
| `Extraction.ExtractEmits` | src/main/java/com/example/Driver10.java:123-143 | a vertex yields a row exactly when nothing is faulty and at least two recognised properties occur; the row is (last name, last age) |
| `Extraction.ExtractSkips` | src/main/java/com/example/Driver10.java:142-143 | a vertex yields nothing exactly when nothing is faulty and at most one recognised property occurs |
| `Extraction.ExtractFails` | src/main/java/com/example/Driver10.java:126-143 | a vertex throws e exactly when some property raises e and no earlier property is faulty |
| `Extraction.ExtractIgnoresUnrecognized` | src/main/java/com/example/Driver10.java:130-140 | inserting a property whose key is neither name nor age (ignoring case) anywhere changes neither the loop result nor the vertex's outcome |
| `Extraction.ScanAllStopsAtFault` | src/main/java/com/example/Driver10.java:126-141 | once a property has thrown, the properties after it do not change the outcome |
| `Extraction.TwoNamesNoAge` | src/main/java/com/example/Driver10.java:123-143 | two name properties (any case) and no age give the row (second name, -1) |
| `Extraction.AliceAndBob` | src/main/java/com/example/Driver10.java:123-143 | {name: Alice, age: "30"} gives (Alice, 30); {name: Bob} gives nothing |
| `Extraction.MalformedAge` | src/main/java/com/example/Driver10.java:135-140 | an age of "thirty" throws NumberFormatException("thirty") even after a valid name |
| `Drain.VertexOutcome` | src/main/java/com/example/Driver10.java:142-143 | what one vertex leads to in the drain; a row is only produced when the vertex's scan yields it and the session is non-null and accepts that INSERT (line 313) |
| `Drain.DrainAll` | src/main/java/com/example/Driver10.java:116-144 | the vertex loop as a fold; at most one row per vertex, and no row at all unless the session is non-null (its full meaning is `DrainAllMeaning`) |
| `Drain.DrainFrom` | src/main/java/com/example/Driver10.java:104-145 | the whole method: a null graph throws NullPointerException at line 107 before any vertex, writing nothing; otherwise the vertex loop, at most one row per vertex |
| `Drain.ScanVertexProperties` | src/main/java/com/example/Driver10.java:123-141 | the inner property loop over the locals thisName, thisAge and set: when it completes, the locals are exactly the fold's result and the vertex yields (thisName, thisAge) when set > 1; when it throws, the vertex throws that exception |
| `Drain.DrainAllMeaning` | src/main/java/com/example/Driver10.java:116-144 | the drain completes exactly when no vertex throws, having written the rows of all vertices in order; otherwise it stops with the first throwing vertex's exception, having written exactly the rows of the vertices before it |
| `Drain.NoSessionWritesNothing` | src/main/java/com/example/Driver10.java:310-315 | with a null session no row is ever written; the drain completes exactly when no vertex yields a row, and otherwise stops at the first vertex that yields something: that vertex's own exception, or NullPointerException from the insert of its row |
| `Drain.AtMostOneRowPerVertex` | src/main/java/com/example/Driver10.java:116-144 | no more rows are written than there are vertices |
| `Drain.DrainIgnoresLaterVertices` | src/main/java/com/example/Driver10.java:116-144 | after an exception, appending further vertices changes nothing: no later vertex is processed and the rows already written are kept |
| `Drain.AliceThenBob` | src/main/java/com/example/Driver10.java:116-144 | draining {name: Alice, age: "30"} then {name: Bob} writes exactly the row (Alice, 30) |
| `Drain.ReadFromTitanStoreIntoCassandra` | src/main/java/com/example/Driver10.java:104-145 | the vertex loop, with the property loop of `ScanVertexProperties` for each vertex, inserts and throws exactly as the drain specification says (a null graph throws before any vertex; a null session or a rejected INSERT throws at that insert); at most one row per vertex; on normal completion, the rows of all vertices in order |
| `Driver.CassPort` | src/main/java/com/example/Driver10.java:167-169 | an absent cassport gives port 9042; a present one gives parseInt of its value, which throws when that is not a 32-bit decimal |
| `Driver.PropsValues.constructor` | src/main/java/com/example/Driver10.java:341-359 | a new holder has null handles and port 0 |
| `Driver.PropsValues.ConnectCassandraCluster` | src/main/java/com/example/Driver10.java:202-214 | a throw from the builder leaves the cluster field unchanged; once the cluster is built the field is set, whether or not getMetadata then throws |
| `Driver.PropsValues.ConnectCassandraSession` | src/main/java/com/example/Driver10.java:221-234 | InvalidQueryException is caught and leaves the session field as it was; any other driver failure propagates; a null cluster throws NullPointerException |
| `Driver.PropsValues.ConnectTitan` | src/main/java/com/example/Driver10.java:242-256 | every failure of open() is caught and leaves the graph field as it was |
| `Driver.PropsValues.CloseCassandraAll` | src/main/java/com/example/Driver10.java:263-284 | the session is closed before the cluster and each closed handle is nulled; a throw from the session's close skips the cluster; a second call after a clean first one issues no close |
| `Driver.PropsValues.CloseTitan` | src/main/java/com/example/Driver10.java:291-303 | the graph is closed if non-null, and the field stays non-null |
| `Driver.DoWork` | src/main/java/com/example/Driver10.java:69-94 | the run ends normally exactly when every step up to the read-back returns; the exception that escapes is named on every path (NumberFormatException for the port, the builder's exception, NoHostAvailableException from getMetadata or the keyspace connect, otherwise the drain's own exception, then NullPointerException from the read-back on a null session, then the SELECT's failure); on any exception no close is issued, and a built cluster handle stays non-null; when the cluster build, the cluster connect or the keyspace connect throws, no row is written and the session and graph stay null; without an open session no row is written; on normal completion the graph, then the session, then (unless the session's close threw) the cluster are closed, and the rows of all vertices were written in order |

## Left out

- Cassandra cluster building, contact points, metadata and host printing (lines 202-214). This is the foreign driver and network I/O. It is reduced to "the builder returns or throws" and "getMetadata returns or throws". The `cassip` address is not modelled.
- The Titan graph opening through `TitanFactory` (lines 242-256). It is a foreign library, reduced to "open returns or throws".
- The Gremlin traversals `g.V().fill` and `g.V(v).properties().fill` (lines 114, 121). They are foreign calls. The filled vertex list is a parameter, and the traversals themselves are assumed not to throw.
- Reading the property file through `FileReader` and `Properties.load` (lines 152-196) is file I/O. An unreadable file, which leaves every setting null and the port at 0, is not modelled. So are the Titan settings, which are only passed on to the foreign library. Only the `cassport` default and its parse are modelled.
- The read-back `SELECT ... limit 100` and its printing (lines 322-334). This is a foreign query whose only effect is console output. It is reduced to "returns or throws", plus the NullPointerException on a null session.
- `main`, `usage` and all console output and `printStackTrace` calls (lines 39-60 and throughout). This is console I/O.
- `equalsIgnoreCase` is modelled as ASCII case folding, and `Integer.parseInt` accepts only the ASCII digits. Java also folds and accepts other Unicode characters, none of which can equal a letter of "name" or "age" after folding. Non-ASCII digits in an age string are outside the model.
- Property values are either a `String` or another object known only by its `toString()` text. Java's runtime types beyond that distinction are not modelled.
- Exceptions from `close()` on the graph are caught and change nothing, so they are not a parameter.
- `Drain.Sink`: an INSERT's failure depends only on the row's content (`rejected` is a set of rows), so two vertices with equal rows always share an outcome. A transient failure of one of two identical inserts is not expressible. No stated property depends on this.
