/** The Option and Result datatypes used throughout the model. */
module Wrappers {

  /** A value that may be absent: a Java reference that may be null. */
  datatype Option<+T> = None | Some(value: T)

  /** The outcome of a Java computation that either returns a value or throws. */
  datatype Result<+T, +E> = Ok(value: T) | Err(error: E)
}

/** The Java exceptions that can escape the modelled code. */
module Failures {

  datatype Exception =
    | NumberFormatException(input: string)  // Integer.parseInt rejected `input`
    | ClassCastException                    // a `name` property whose value is not a String
    | NullPointerException                  // a method called on a null handle field
    | NoHostAvailableException              // the Cassandra driver could not reach the cluster
    | QueryFailedException                  // the read-back SELECT threw
    | InsertFailedException                 // session.execute threw for an INSERT
    | ClusterBuildException                 // Cluster.builder()...build() rejected the contact point
}
