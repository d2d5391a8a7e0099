/**
 * Driver10's connection bookkeeping: the PropsValues holder with its nullable
 * handle fields, the connect and close methods that set and clear them, the
 * `cassport` default, and the fixed call order of doWork. Calls into the
 * Cassandra and Titan drivers are given as succeed/throw outcomes.
 */
module Driver {
  import opened Wrappers
  import opened Failures
  import opened JavaInt
  import opened Extraction
  import opened Drain

  /** The driver objects a PropsValues can hold. */
  datatype Handle = ClusterHandle | SessionHandle | GraphHandle

  /** The port default of readPropsFile: an absent `cassport` means "9042"; either way it is parsed. */
  function CassPort(cassport: Option<string>): (r: Option<int>)
    ensures cassport.None? ==> r == Some(9042)
    ensures cassport.Some? ==> r == ParseInt(cassport.value)
    ensures r.Some? ==> InRange(r.value)
  {
    ParseIntDefaultPort();
    ParseInt(if cassport.None? then "9042" else cassport.value)
  }

  /** What cluster.connect("demo") does. */
  datatype KeyspaceOutcome =
    | SessionOpened       // returns a session
    | InvalidKeyspace     // throws InvalidQueryException, which connectCassandraSession catches
    | SessionUnreachable  // throws any other driver exception, which propagates

  /** The outcomes of everything doWork asks of the property file and of the two drivers. */
  datatype Environment = Environment(
    cassport: Option<string>,        // the `cassport` entry of the property file
    clusterBuilds: bool,             // Cluster.builder()...build() returns (else it throws)
    clusterReachable: bool,          // cluster.getMetadata() returns (else it throws)
    keyspace: KeyspaceOutcome,
    graphOpens: bool,                // TitanFactory...open() returns (else its exception is caught)
    vertices: seq<Vertex>,           // what g.V() and g.V(v).properties() fill in
    rejectedRows: set<Row>,          // the rows whose INSERT makes session.execute throw
    readBackSucceeds: bool,          // the SELECT of readDataFromCassandra returns (else it throws)
    sessionCloseThrows: bool,
    clusterCloseThrows: bool)

  /**
   * PropsValues: a null field is None. `released` records the close() calls
   * issued on the driver objects, in order, whether or not they threw; it is
   * what the model observes of the drivers, not a field of the Java class.
   */
  class PropsValues {
    var cluster: Option<Handle>
    var session: Option<Handle>
    var graph: Option<Handle>
    var cCassPort: int
    ghost var released: seq<Handle>

    /** Each field holds only the kind of driver object its Java type allows. */
    ghost predicate Valid()
      reads this
    {
      && (cluster.None? || cluster.value == ClusterHandle)
      && (session.None? || session.value == SessionHandle)
      && (graph.None? || graph.value == GraphHandle)
    }

    constructor ()
      ensures Valid()
      ensures cluster.None? && session.None? && graph.None?
      ensures cCassPort == 0 && released == []
    {
      cluster, session, graph := None, None, None;
      cCassPort := 0;
      released := [];
    }

    /**
     * connectCassandraCluster: when the builder throws (line 205) the field is
     * left as it was. Otherwise the cluster is stored before getMetadata can
     * throw (line 207), so the field is set whether or not that call returns.
     */
    method ConnectCassandraCluster(builds: bool, reachable: bool) returns (thrown: Option<Exception>)
      modifies this
      requires Valid()
      ensures Valid()
      ensures cluster == if builds then Some(ClusterHandle) else old(cluster)
      ensures thrown == if !builds then Some(ClusterBuildException)
                        else if reachable then None else Some(NoHostAvailableException)
      ensures session == old(session) && graph == old(graph)
      ensures cCassPort == old(cCassPort) && released == old(released)
    {
      if !builds {
        return Some(ClusterBuildException);
      }
      cluster := Some(ClusterHandle);
      thrown := if reachable then None else Some(NoHostAvailableException);
    }

    /**
     * connectCassandraSession: only InvalidQueryException is caught, leaving
     * the session null; with a null cluster the call itself throws.
     */
    method ConnectCassandraSession(outcome: KeyspaceOutcome) returns (thrown: Option<Exception>)
      modifies this
      requires Valid()
      ensures Valid()
      ensures old(cluster).None? ==> thrown == Some(NullPointerException) && session == old(session)
      ensures old(cluster).Some? ==> thrown == (if outcome == SessionUnreachable then Some(NoHostAvailableException) else None)
      ensures old(cluster).Some? ==> session == (if outcome == SessionOpened then Some(SessionHandle) else old(session))
      ensures cluster == old(cluster) && graph == old(graph)
      ensures cCassPort == old(cCassPort) && released == old(released)
    {
      if cluster.None? {
        return Some(NullPointerException);
      }
      thrown := None;
      match outcome {
        case SessionOpened => session := Some(SessionHandle);
        case InvalidKeyspace =>
        case SessionUnreachable => thrown := Some(NoHostAvailableException);
      }
    }

    /** connectTitan: every exception from open() is caught and leaves the graph as it was. */
    method ConnectTitan(opens: bool)
      modifies this
      requires Valid()
      ensures Valid()
      ensures graph == if opens then Some(GraphHandle) else old(graph)
      ensures cluster == old(cluster) && session == old(session)
      ensures cCassPort == old(cCassPort) && released == old(released)
    {
      if opens {
        graph := Some(GraphHandle);
      }
    }

    /**
     * closeCassandraAll: the session is closed and nulled, then the cluster;
     * both closes share one try block, so a throw from session.close() skips
     * the cluster. The exception is caught and printed.
     */
    method CloseCassandraAll(sessionCloseThrows: bool, clusterCloseThrows: bool)
      modifies this
      requires Valid()
      ensures Valid()
      ensures var sessionThrew := old(session).Some? && sessionCloseThrows;
        && session == (if old(session).Some? && !sessionCloseThrows then None else old(session))
        && cluster == (if old(cluster).Some? && !sessionThrew && !clusterCloseThrows then None else old(cluster))
        && released == old(released)
             + (if old(session).Some? then [old(session).value] else [])
             + (if old(cluster).Some? && !sessionThrew then [old(cluster).value] else [])
      ensures !sessionCloseThrows && !clusterCloseThrows ==> session.None? && cluster.None?
      ensures old(session).None? && old(cluster).None? ==> released == old(released) && session.None? && cluster.None?
      ensures graph == old(graph) && cCassPort == old(cCassPort)
    {
      if session.Some? {
        released := released + [session.value];
        if sessionCloseThrows {
          return;
        }
        session := None;
      }
      if cluster.Some? {
        released := released + [cluster.value];
        if clusterCloseThrows {
          return;
        }
        cluster := None;
      }
    }

    /**
     * closeTitan: the graph is closed but the field is never set back to null.
     * A throw from close() is caught and printed, and changes nothing else.
     */
    method CloseTitan()
      modifies this
      requires Valid()
      ensures Valid()
      ensures released == old(released) + (if old(graph).Some? then [old(graph).value] else [])
      ensures graph == old(graph)
      ensures cluster == old(cluster) && session == old(session) && cCassPort == old(cCassPort)
    {
      if graph.Some? {
        released := released + [graph.value];
      }
    }
  }

  /** Whether doWork gets to the end: every step up to the read-back returns normally. */
  predicate RunsToEnd(env: Environment)
  {
    && CassPort(env.cassport).Some?
    && env.clusterBuilds
    && env.clusterReachable
    && env.keyspace == SessionOpened
    && env.graphOpens
    && DrainAll(env.vertices, Sink(true, env.rejectedRows)).thrown.None?
    && env.readBackSucceeds
  }

  /**
   * doWork: read the port, connect the cluster, the keyspace and the graph,
   * drain, read back, then close the graph and the Cassandra handles. There is
   * no try/finally: an exception anywhere ends the run and no close is issued.
   */
  method DoWork(env: Environment) returns (props: PropsValues, written: seq<Row>, thrown: Option<Exception>)
    ensures fresh(props) && props.Valid()
    ensures thrown.None? <==> RunsToEnd(env)
    ensures thrown.Some? ==> props.released == []
    ensures CassPort(env.cassport).None? ==>
      thrown == Some(NumberFormatException(env.cassport.value)) && written == []
      && props.cluster.None? && props.session.None? && props.graph.None?
    ensures CassPort(env.cassport).Some? ==> props.cCassPort == CassPort(env.cassport).value
    ensures CassPort(env.cassport).Some? && !env.clusterBuilds ==>
      thrown == Some(ClusterBuildException) && props.cluster.None?
    ensures CassPort(env.cassport).Some? && env.clusterBuilds && thrown.Some? ==> props.cluster == Some(ClusterHandle)
    ensures CassPort(env.cassport).Some? && (!env.clusterBuilds || !env.clusterReachable || env.keyspace == SessionUnreachable) ==>
      thrown.Some? && written == [] && props.session.None? && props.graph.None?
    ensures env.keyspace != SessionOpened ==> thrown.Some? && written == []
    ensures CassPort(env.cassport).Some? && env.clusterBuilds && !env.clusterReachable ==>
      thrown == Some(NoHostAvailableException)
    ensures CassPort(env.cassport).Some? && env.clusterBuilds && env.clusterReachable && env.keyspace == SessionUnreachable ==>
      thrown == Some(NoHostAvailableException)
    ensures CassPort(env.cassport).Some? && env.clusterBuilds && env.clusterReachable && env.keyspace != SessionUnreachable ==>
      var d := DrainFrom(env.graphOpens, Sink(env.keyspace == SessionOpened, env.rejectedRows), env.vertices);
      thrown == (if d.thrown.Some? then d.thrown
                 else if env.keyspace != SessionOpened then Some(NullPointerException)
                 else if !env.readBackSucceeds then Some(QueryFailedException)
                 else None)
    ensures CassPort(env.cassport).Some? && env.clusterBuilds && env.clusterReachable && env.keyspace != SessionUnreachable ==>
      written == DrainFrom(env.graphOpens, Sink(env.keyspace == SessionOpened, env.rejectedRows), env.vertices).written
    ensures thrown.None? ==>
      && written == Emitted(env.vertices, Sink(true, env.rejectedRows))
      && props.graph == Some(GraphHandle)
      && props.session == (if env.sessionCloseThrows then Some(SessionHandle) else None)
      && props.cluster == (if env.sessionCloseThrows || env.clusterCloseThrows then Some(ClusterHandle) else None)
      && props.released == [GraphHandle, SessionHandle] + (if env.sessionCloseThrows then [] else [ClusterHandle])
  {
    props := new PropsValues();
    written := [];
    var port := CassPort(env.cassport);
    if port.None? {
      return props, [], Some(NumberFormatException(env.cassport.value));
    }
    props.cCassPort := port.value;

    thrown := props.ConnectCassandraCluster(env.clusterBuilds, env.clusterReachable);
    if thrown.Some? {
      return;
    }
    thrown := props.ConnectCassandraSession(env.keyspace);
    if thrown.Some? {
      return;
    }
    props.ConnectTitan(env.graphOpens);

    var sink := Sink(props.session.Some?, env.rejectedRows);
    written, thrown := ReadFromTitanStoreIntoCassandra(props.graph.Some?, sink, env.vertices);
    if !sink.open {
      NoSessionWritesNothing(env.vertices, sink);
    }
    if thrown.Some? {
      return;
    }
    // readDataFromCassandra: props.session.execute(...)
    if props.session.None? {
      return props, written, Some(NullPointerException);
    }
    if !env.readBackSucceeds {
      return props, written, Some(QueryFailedException);
    }

    props.CloseTitan();
    props.CloseCassandraAll(env.sessionCloseThrows, env.clusterCloseThrows);
  }
}
