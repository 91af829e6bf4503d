/** The progress record: one row of the user_progress table as the service returns it and the progress view reads it. */
module Progress {
  import opened Wrappers

  /** A point in time, as the database stores `completed_at`. */
  type Timestamp = int

  datatype ProgressRecord = ProgressRecord(
    userId: string,
    moduleName: string,
    week: int,
    day: int,
    topic: string,
    lessonCompleted: bool,
    quizScore: Option<int>,
    timeSpent: Option<int>,
    completedAt: Option<Timestamp>)
}
