/** Outcome types shared by the ranking operations: an optional value, and a
    result that either carries a new table or says why the request was refused. */
module Results {

  datatype Option<+T> = None | Some(value: T)

  /** The refusals the ranking code reports to its callers. */
  datatype Failure =
    | NotApproved      // only approved claims can be ranked or flagged
    | InvalidRank      // a rank that is present must be an integer in 1..50
    | AlreadyApproved  // the user already has another approved claim for the level
    | NameRequired     // a level needs a non-empty name
    | NameTaken        // level names are unique
    | HasClaims        // a level that has claims cannot be deleted

  datatype Result<+T> = Ok(value: T) | Err(failure: Failure)
}
