/**
 * The `submissions` table of server.js (lines 23-31) as an abstract store:
 * a sequence of rows in insertion order and the AUTOINCREMENT counter that
 * hands out ids.  The SQL engine itself is not modelled; a write failure is
 * an injected flag.
 */
module Store {
  import opened Wrappers

  /** `created_at`: an abstract, totally ordered instant (the store's clock reading). */
  type Timestamp = nat

  /** One row of the `submissions` table. */
  datatype Submission = Submission(
    id: nat,
    name: string,
    email: string,
    message: string,
    createdAt: Timestamp)

  /** A row whose three user fields are all non-empty. */
  predicate Complete(r: Submission) {
    r.name != "" && r.email != "" && r.message != ""
  }

  /** Ids strictly increase along the sequence, so they are unique. */
  ghost predicate IdsIncreasing(rows: seq<Submission>) {
    forall i, j :: 0 <= i < j < |rows| ==> rows[i].id < rows[j].id
  }

  class Store {
    /** The rows of the table, in insertion order. */
    var rows: seq<Submission>
    /** The id the next successful insert receives. */
    var nextId: nat

    ghost predicate Valid()
      reads this
    {
      && nextId >= 1
      && IdsIncreasing(rows)
      && (forall i :: 0 <= i < |rows| ==> rows[i].id < nextId)
    }

    /** Every stored row has its three user fields filled in. */
    ghost predicate AllComplete()
      reads this
    {
      forall i :: 0 <= i < |rows| ==> Complete(rows[i])
    }

    /** A freshly created table: no rows, the first id will be 1. */
    constructor ()
      ensures Valid() && AllComplete()
      ensures rows == [] && nextId == 1
    {
      rows := [];
      nextId := 1;
    }

    /**
     * `INSERT INTO submissions (name, email, message) VALUES (?, ?, ?)`.
     * On failure nothing changes and no id is returned; on success one row,
     * stamped `now` and carrying an id above every existing one, is appended.
     */
    method Insert(name: string, email: string, message: string, now: Timestamp, fails: bool)
      returns (id: Option<nat>)
      requires Valid()
      modifies this
      ensures Valid()
      ensures fails ==> id == None && rows == old(rows) && nextId == old(nextId)
      ensures !fails ==> id == Some(old(nextId))
      ensures !fails ==> rows == old(rows) + [Submission(old(nextId), name, email, message, now)]
      ensures !fails ==> forall i :: 0 <= i < |old(rows)| ==> old(rows)[i].id < id.value
    {
      if fails {
        id := None;
        return;
      }
      id := Some(nextId);
      rows := rows + [Submission(nextId, name, email, message, now)];
      nextId := nextId + 1;
    }
  }
}
