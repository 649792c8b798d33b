module Options {
  datatype Option<+T> = None | Some(value: T)
}

module FiniteSets {
  /** Names a member of a non-empty set, as a witness for `:|`. */
  lemma SomeMember<T>(s: set<T>) returns (x: T)
    requires s != {}
    ensures x in s
  {
    x :| x in s;
  }
}
