/** The `-mode` flag of cmd/main.go: the three operations the tool performs
    and the check that rejects any other value. */
module Modes {
  import opened Wrappers

  const ModeCreate := "create"
  const ModeDelete := "delete"
  const ModeListTopics := "list-topics"

  datatype Mode = Create | Delete | ListTopics

  /** The literal that selects each mode on the command line. */
  function ModeName(m: Mode): string
  {
    match m
    case Create => ModeCreate
    case Delete => ModeDelete
    case ListTopics => ModeListTopics
  }

  /** The mode check: exactly the three literals are accepted, compared as
      they are (no trimming, no case folding), and each selects the mode it
      names. */
  function ParseMode(flag: string): (r: Option<Mode>)
    ensures r.Some? <==> flag == "create" || flag == "delete" || flag == "list-topics"
    ensures r.Some? ==> ModeName(r.value) == flag
  {
    if flag == ModeCreate then Some(Create)
    else if flag == ModeDelete then Some(Delete)
    else if flag == ModeListTopics then Some(ListTopics)
    else None
  }

  /** Parsing the name of a mode gives that mode back. */
  lemma ParseModeName(m: Mode)
    ensures ParseMode(ModeName(m)) == Some(m)
  {
  }

  /** The modes that act on a topic list and therefore refuse an empty one. */
  predicate NeedsTopics(m: Mode)
  {
    m == Create || m == Delete
  }
}
