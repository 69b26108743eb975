/**
 * The GitHub REST records the core reads, as typed values. Timestamps (`created_at`,
 * `closed_at`) are milliseconds since the Unix epoch, as `new Date(...).getTime()` gives them.
 */
module Records {
  import opened Wrappers

  /** `issue.state`: only "closed" is told apart; every other value behaves as open. */
  datatype State = Open | Closed

  /**
   * An issue record: `number`, `title`, `created_at`, `closed_at` (absent while open),
   * `state`, and whether the record carries a `pull_request` field.
   */
  datatype Issue = Issue(
    number: int,
    title: string,
    createdAt: int,
    closedAt: Option<int>,
    state: State,
    isPullRequest: bool)

  /**
   * An issue event record: the `event` kind, `created_at`, the attached label's name
   * (`label.name`, when there is a label) and the destination column
   * (`project_card.column_name`, when there is a project card).
   */
  datatype Event = Event(
    kind: string,
    createdAt: int,
    labelName: Option<string>,
    columnName: Option<string>)
}
