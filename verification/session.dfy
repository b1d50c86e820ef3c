/** Streamlit's `st.session_state`: a per-browser-session dictionary of
    loosely typed values that the pages read and write. */
module Session {
  /** The kinds of value the pages keep in the session. */
  datatype Value = Bool(b: bool) | Int(n: int) | Str(s: string) | Null

  /** Python truthiness of a session value. */
  predicate Truthy(v: Value)
  {
    match v
    case Bool(b) => b
    case Int(n) => n != 0
    case Str(s) => s != ""
    case Null => false
  }

  /** `st.session_state.get(key, default)`. */
  function Get(vars: map<string, Value>, key: string, default: Value): (v: Value)
    ensures key in vars ==> v == vars[key]
    ensures key !in vars ==> v == default
  {
    if key in vars then vars[key] else default
  }

  /** The session dictionary of one browser session. */
  class SessionState {
    var vars: map<string, Value>

    constructor ()
      ensures vars == map[]
    {
      vars := map[];
    }
  }
}
