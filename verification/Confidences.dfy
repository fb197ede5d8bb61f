/** How confident each correlation rule is, and the bar for a resolved role. */
module Confidences {
  const EXPLICIT_RUN_ID := 1.0
  const ISSUE_RESOLVED := 1.0
  const ISSUE_MENTION := 0.1
  const BRANCH_ISSUE := 0.8
  const COMMIT_ISSUE := 0.6
  const TEMPORAL := 0.4
  const THRESHOLD := 0.5
}
