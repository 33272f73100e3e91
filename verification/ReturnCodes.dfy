/** The return codes of the library. */
module ReturnCodes {
  const FCM_OK: int := 0
  const FCM_E_LENGTH_MISMATCH: int := -1
  const FCM_E_DUPLICATE_KEY: int := -3
  const FCM_E_CONSTRUCT_FAIL: int := -4
  const FCM_E_INVALID_FORMAT: int := -5
  const FCM_E_CHECKSUM: int := -6
  const FCM_E_SHORT_BUFFER: int := -7
  const FCM_E_INVALID_PARAMS: int := -9
}
