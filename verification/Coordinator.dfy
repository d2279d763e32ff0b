/** The backend's coordinator slot: the staging names of the statement that filled it last (src/fdw/modify/coordinator.rs). */
module Coordinator {
  import opened Wrappers
  import opened Names

  class Backend {
    var active: Option<set<Name>>

    constructor ()
      ensures active == None
    {
      active := None;
    }

    /** Fills the slot, replacing whatever statement was there. */
    method OpenStatement()
      modifies this
      ensures active == Some({})
    {
      active := Some({});
    }

    /** Empties the slot; names still in flight are reported and left alone. */
    method CloseStatementSuccess() returns (orphans: set<Name>)
      modifies this
      ensures active == None
      ensures orphans == if old(active).Some? then old(active).value else {}
    {
      orphans := if active.Some? then active.value else {};
      active := None;
    }

    /** Without a filled slot, registering does nothing. */
    method RegisterStaging(n: Name)
      modifies this
      ensures active == if old(active).Some? then Some(old(active).value + {n}) else None
    {
      if active.Some? {
        active := Some(active.value + {n});
      }
    }

    method MarkCommitted(n: Name)
      modifies this
      ensures active == if old(active).Some? then Some(old(active).value - {n}) else None
    {
      if active.Some? {
        active := Some(active.value - {n});
      }
    }
  }
}
