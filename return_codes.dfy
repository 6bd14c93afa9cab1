/** The result codes the scheduler's operations return (the `ReturnCodeKeys`
    constants). Only their identity matters to the scheduler, so each is a
    constructor here rather than a numeric literal. */
module ReturnCodes {

  datatype ReturnCode =
    | E000  // method not implemented
    | E001  // initialisation succeeded
    | E002  // scheduling threshold is invalid
    | E003  // node registered
    | E004  // node id is invalid
    | E005  // node is already registered
    | E006  // node unregistered
    | E007  // node does not exist
    | E008  // task added
    | E009  // task id is invalid
    | E010  // task is already added
    | E011  // task deleted
    | E012  // task does not exist
    | E013  // tasks scheduled
    | E014  // no suitable migration plan
    | E015  // task status queried
    | E016  // the query's output list is invalid
  {
    /** The codes that report a rejected request. */
    predicate IsError() {
      this in {E000, E002, E004, E005, E007, E009, E010, E012, E014, E016}
    }
  }
}
