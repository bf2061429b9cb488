/**
  The exceptions a FIQL operation can raise.

  The package raises `FiqlException` for malformed strings and bad operator
  symbols, and its subclass `FiqlObjectException` for bad construction
  arguments. Two of Python's own exceptions are reachable too: `IndexError`
  from popping an empty element list and `RecursionError` when a recursion
  does not end.
 */
module Errors {

  datatype Error =
    // FiqlException
    | InvalidOperator(symbol: string)      // not ';' or ','
    | OperatorBeforeConstraint             // an operator where the group has no element yet
    | OperatorAfterOperator                // two operators in a row
    | OperandAfterOperand                  // two constraints or groups without an operator between
    | UnclosedGroup                        // nesting level not back to zero (legacy: cursor not back at the root)
    | NoConstraint                         // the parsed string holds no constraint
    // FiqlObjectException
    | InvalidComparison(comparison: string)
    | InvalidParent                        // a parent that is not an Expression
    | InvalidElementType                   // neither a Constraint, an Expression nor an Operator
    // Python's own
    | PopFromEmptyList
    | RecursionLimitExceeded
  {
    /** Raised as a FiqlException (or a subclass), as opposed to a Python error. */
    predicate IsFiqlException() {
      !PopFromEmptyList? && !RecursionLimitExceeded?
    }

    /** Raised as a FiqlObjectException. */
    predicate IsObjectException() {
      InvalidComparison? || InvalidParent? || InvalidElementType?
    }
  }
}
