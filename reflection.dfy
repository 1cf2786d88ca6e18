// Reflection over static methods, as the activator uses it: look a method up
// by declaring type and name, then call it with no target and no arguments.
module Reflection {
  import opened Types

  /** The static methods of the process that Type.GetMethod(name,
      BindingFlags.Public | BindingFlags.NonPublic | BindingFlags.Static)
      finds, with what calling each of them does, and the calls made so far. */
  class StaticMethods {
    const Table: map<MethodKey, Completion>
    var Calls: seq<MethodKey>

    constructor (table: map<MethodKey, Completion>)
      ensures Table == table && Calls == []
    {
      Table := table;
      Calls := [];
    }

    /** MethodInfo.Invoke(null, null) on a method that was found: the call is
        recorded and ends as the method does. */
    method Invoke(key: MethodKey) returns (c: Completion)
      requires key in Table
      modifies this`Calls
      ensures Calls == old(Calls) + [key]
      ensures c == Table[key]
    {
      Calls := Calls + [key];
      c := Table[key];
    }
  }
}
