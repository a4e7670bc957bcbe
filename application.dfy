/** The application-level request and the presenter, as the request stash sees them. */
module Application {
  import opened Wrappers

  /** The flag set on a request that was brought back from the stash. */
  const Restored := "restored"

  /** The query parameter that carries the flash-message session id. */
  const FlashKey := "_fid"

  /**
   * An application request: presenter name, HTTP method, parameters, POST
   * data and flags. Parameter values are modelled as strings.
   */
  datatype Request = Request(
    name: string,
    httpMethod: string,
    parameters: map<string, string>,
    post: map<string, string>,
    flags: map<string, bool>)
  {
    /** A flag is set when it is present and true. */
    predicate HasFlag(flag: string) {
      flag in flags && flags[flag]
    }

    function SetFlag(flag: string, value: bool): (r: Request)
      ensures r.HasFlag(flag) == value
      ensures r.flags - {flag} == flags - {flag}
      ensures r.name == name && r.httpMethod == httpMethod && r.parameters == parameters && r.post == post
    {
      this.(flags := flags[flag := value])
    }
  }

  /** What the stash reads from a presenter: whether it has a flash session, and its parameters. */
  datatype Presenter = Presenter(flashSession: bool, parameters: map<string, string>) {

    predicate HasFlashSession() {
      flashSession
    }

    function GetParameter(name: string): Option<string> {
      if name in parameters then Some(parameters[name]) else None
    }
  }

  /**
   * PHP's array union `left + right`: every key of either side, and where both
   * have a key the left value is kept.
   */
  function Union(left: map<string, string>, right: map<string, string>): (r: map<string, string>)
    ensures r.Keys == left.Keys + right.Keys
    ensures forall k :: k in left ==> r[k] == left[k]
    ensures forall k :: k in right && k !in left ==> r[k] == right[k]
  {
    right + left
  }
}
