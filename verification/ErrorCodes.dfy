/** The fixed code and message of an unexpected error (core/internal/apperror). */
module ErrorCodes {
  const INTERNAL_ERROR := "INTERNAL_ERROR"

  const INTERNAL_ERROR_MESSAGE := "\U{5185}\U{90E8}\U{30A8}\U{30E9}\U{30FC}\U{304C}\U{767A}\U{751F}\U{3057}\U{307E}\U{3057}\U{305F}"
}
