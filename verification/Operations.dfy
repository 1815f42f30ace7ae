/** The parts of the operation model that several components share. */
module Operations {
  datatype Effect = ReadOnly | IdempotentWrite | Action

  datatype Sensitivity = Normal | Sensitive
}
