/** The HTTP status codes the fairing and the guard use. */
module Http {
  const StatusOk: nat := 200
  const StatusUnprocessableEntity: nat := 422
}
