/** The typed activity record that every stage after parsing works on. */
module Records {
  import opened Calendar

  /** The two record types the statistics single out. */
  const StepCount := "HKQuantityTypeIdentifierStepCount"
  const DistanceWalkingRunning := "HKQuantityTypeIdentifierDistanceWalkingRunning"

  /**
   * One row of the normalised frame: the caller's user tag, the record count
   * and type exactly as the export spells them, the day the record is filed
   * under, its interval, and its value.
   */
  datatype Row = Row(
    user: string,
    recordCount: string,
    recordType: string,
    dateStamp: ValidDateTime,
    startDate: ValidDateTime,
    endDate: ValidDateTime,
    value: real)
}
