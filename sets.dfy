/** Choosing elements of finite sets, as iterating over a table or a set of sockets does. */
module Sets {

  /**
   * Some element of a non-empty set: iterating over a set (the rows of a table, the sockets
   * of a room) visits its elements in an order nobody promises.
   */
  method Pick<K>(pending: set<K>) returns (k: K)
    requires pending != {}
    ensures k in pending
  {
    k :| k in pending;
  }
}
