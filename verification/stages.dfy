/** The three severity stages a timer can show. */
module Stages {

  datatype Stage = Okay | Warning | Alert

  /** okay < warning < alert. */
  function Severity(s: Stage): (n: nat)
    ensures n <= 2
  {
    match s
    case Okay => 0
    case Warning => 1
    case Alert => 2
  }
}
