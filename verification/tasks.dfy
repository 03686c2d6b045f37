/**
 * The tasks the explorers hand to their model: an action name and the
 * keyword parameters it is given, all of them strings here.
 */
module Tasks {

  datatype Task = Task(action: string, params: map<string, string>)

  /** `f"\"{s}\""`: the quoting used in every task description. */
  function Quoted(s: string): string
  {
    "\"" + s + "\""
  }
}
