/** `setStatus(state, msg)` of main.js: the status badge shows one of three
    states.  Only the state is modelled, not the text colour or the tooltip
    styling. */
module Status {

  datatype Status = Live | Editing | Failed(message: string)

  /** The state `setStatus(state, msg)` shows: `'live'` and `'typing'` are
      recognised, and every other state word shows the error with `msg`. */
  function StatusFor(state: string, msg: string): (st: Status)
    ensures st.Live? <==> state == "live"
    ensures st.Editing? <==> state == "typing"
    ensures st.Failed? <==> state != "live" && state != "typing"
    ensures st.Failed? ==> st.message == msg
  {
    if state == "live" then Live
    else if state == "typing" then Editing
    else Failed(msg)
  }

  /** The state word a caller passes to show `st`. */
  function StateWord(st: Status): string
  {
    match st
    case Live => "live"
    case Editing => "typing"
    case Failed(_) => "error"
  }

  /** Every status can be shown, and the call that shows it is the one main.js
      makes: `setStatus('live')`, `setStatus('typing')`, `setStatus('error', msg)`. */
  lemma StatusForStateWord(st: Status, msg: string)
    ensures StatusFor(StateWord(st), if st.Failed? then st.message else msg) == st
  {
  }
}
