/**
 * The request stash: stores an application request in the session section
 * "Nette.Application/requests" under a fresh random key, and later hands it
 * back, flagged as restored, to the user who stored it (or to anyone, when it
 * was stored anonymously), either as a value or as a redirect to the URL it
 * came from.
 */
module Stash {
  import opened Wrappers
  import opened Http
  import opened Application

  /** The query parameter that carries a stash key on the callback URL. */
  const RequestKey := "_rid"

  /** The session section that holds the stash. */
  const SectionName := "Nette.Application/requests"

  /** Keys are drawn as random strings of this length. */
  const KeyLength := 5

  const DefaultExpiration: Expiration := "+ 10 minutes"

  /** A key as the random generator draws it. */
  type RandomKey = k: string | |k| == KeyLength witness "00000"

  /** A user id as the identity reports it; ints and strings are never identical. */
  datatype UserId = IntId(n: int) | StringId(s: string)

  /** One stashed request: the owner (None when stored anonymously), the callback URL and the request. */
  datatype Entry = Entry(user: Option<UserId>, url: Url, request: Request)

  /** A successful lookup: the restored copy of the request and its callback URL. */
  datatype Loaded = Loaded(request: Request, url: Url)

  /** How restoring ends: nothing to restore, or a redirect that aborts the current request. */
  datatype Outcome = NoOp | Redirect(target: Url)

  /** An entry is handed out when it was stored anonymously, or to the very user who stored it. */
  predicate MayRestore(owner: Option<UserId>, current: Option<UserId>) {
    owner.None? || owner == current
  }

  /** `copy` is `stored` with the restored flag set and nothing else changed. */
  predicate IsRestoredCopy(stored: Request, copy: Request) {
    && copy.name == stored.name
    && copy.httpMethod == stored.httpMethod
    && copy.parameters == stored.parameters
    && copy.post == stored.post
    && copy.HasFlag(Restored)
    && copy.flags - {Restored} == stored.flags - {Restored}
  }

  /**
   * Every stored key has the generated length and an expiration, and the
   * entry's callback URL carries that very key in its `_rid` parameter.
   */
  ghost predicate WellFormed(section: SessionSection<Entry>)
    reads section
  {
    && section.data.Keys == section.expirations.Keys
    && forall k :: k in section.data ==>
         |k| == KeyLength && QueryParameter(section.data[k].url, RequestKey) == Some(k)
  }

  /** The current URL with `_rid=key` added: the URL that leads back to the stashed request. */
  function CallbackUrl(current: Url, key: string): (r: Url)
    ensures r.location == current.location
    ensures QueryParameter(r, RequestKey) == Some(key)
    ensures forall n :: n != RequestKey ==> QueryParameter(r, n) == QueryParameter(current, n)
  {
    AppendQuery(current, RequestKey, key)
  }

  /** The key a request names: its `_rid` parameter; a missing one is NULL, which indexes the table as "". */
  function KeyOf(httpRequest: Url): string {
    QueryParameter(httpRequest, RequestKey).GetOr("")
  }

  /** The presenter's `_fid` parameter as it is concatenated into a URL: a missing one reads as "". */
  function FlashValue(presenter: Presenter): string {
    presenter.GetParameter(FlashKey).GetOr("")
  }

  /**
   * The retry loop of storeRequest: draws keys from the random stream until
   * one is not taken, and returns the first such draw.
   */
  method DrawFreshKey(draws: seq<RandomKey>, taken: set<string>) returns (i: nat, key: RandomKey)
    requires exists w :: 0 <= w < |draws| && draws[w] !in taken
    ensures i < |draws| && key == draws[i]
    ensures key !in taken
    ensures forall j :: 0 <= j < i ==> draws[j] in taken
  {
    i := 0;
    key := draws[0];
    while key in taken
      invariant i < |draws| && key == draws[i]
      invariant forall j :: 0 <= j < i ==> draws[j] in taken
      decreases |draws| - i
    {
      i := i + 1;
      key := draws[i];
    }
  }

  class RequestStash {
    /** The URL of the HTTP request being served. */
    const httpUrl: Url
    /** The section "Nette.Application/requests" of the session. */
    const session: SessionSection<Entry>
    /** The id of the current user, None when there is none. */
    const userId: Option<UserId>

    constructor (httpUrl: Url, session: SessionSection<Entry>, userId: Option<UserId>)
      ensures this.httpUrl == httpUrl && this.session == session && this.userId == userId
    {
      this.httpUrl := httpUrl;
      this.session := session;
      this.userId := userId;
    }

    /**
     * Stores `request` under a key not yet in the section, owned by the current
     * user and with the current URL plus `_rid=key` as its callback URL, and
     * gives that key an expiration. `draws` is the stream of random keys.
     */
    method StoreRequest(request: Request, draws: seq<RandomKey>, expiration: Expiration := DefaultExpiration)
      returns (key: RandomKey)
      requires exists w :: 0 <= w < |draws| && draws[w] !in session.data
      modifies session
      ensures key !in old(session.data)
      ensures session.data == old(session.data)[key := Entry(userId, CallbackUrl(httpUrl, key), request)]
      ensures session.expirations == old(session.expirations)[key := expiration]
      ensures old(WellFormed(session)) ==> WellFormed(session)
      ensures var loaded := LoadRequestFromSession(key);
        loaded.Some? && IsRestoredCopy(request, loaded.value.request) &&
        QueryParameter(loaded.value.url, RequestKey) == Some(key)
      ensures GetRequest(CallbackUrl(httpUrl, key)).Some?
    {
      var _, k := DrawFreshKey(draws, session.data.Keys);
      key := k;
      var url := CallbackUrl(httpUrl, key);
      session.Set(key, Entry(userId, url, request));
      session.SetExpiration(expiration, key);
    }

    /**
     * The shared lookup: None when the key is absent or the entry belongs to
     * another user; otherwise a restored copy of the request and its URL.
     */
    function LoadRequestFromSession(key: string): (r: Option<Loaded>)
      reads session
      ensures key !in session.data ==> r.None?
      ensures key in session.data && session.data[key].user.None? ==> r.Some?
      ensures key in session.data && session.data[key].user.Some? ==>
        (r.Some? <==> session.data[key].user == userId)
      ensures r.Some? ==>
        r.value.url == session.data[key].url &&
        IsRestoredCopy(session.data[key].request, r.value.request)
    {
      if key !in session.data || (session.data[key].user.Some? && session.data[key].user != userId) then
        None
      else
        var entry := session.data[key];
        Some(Loaded(entry.request.SetFlag(Restored, true), entry.url))
    }

    /**
     * The stashed request that `httpRequest` names by its `_rid` parameter.
     * When the current URL carries `_fid`, that value joins the parameters
     * without overriding any parameter the request already has.
     */
    function GetRequest(httpRequest: Url): (r: Option<Request>)
      reads session
      ensures r.None? <==> LoadRequestFromSession(KeyOf(httpRequest)).None?
      ensures r.Some? ==>
        var stored := session.data[KeyOf(httpRequest)].request;
        && IsRestoredCopy(stored, r.value.(parameters := stored.parameters))
        && (QueryParameter(httpUrl, FlashKey).None? ==> r.value.parameters == stored.parameters)
        && (QueryParameter(httpUrl, FlashKey).Some? ==>
              && r.value.parameters.Keys == stored.parameters.Keys + {FlashKey}
              && (forall k :: k in stored.parameters ==> r.value.parameters[k] == stored.parameters[k])
              && (FlashKey !in stored.parameters ==>
                    r.value.parameters[FlashKey] == QueryParameter(httpUrl, FlashKey).value))
    {
      match LoadRequestFromSession(KeyOf(httpRequest))
      case None => None
      case Some(loaded) =>
        match QueryParameter(httpUrl, FlashKey)
        case None => Some(loaded.request)
        case Some(flash) =>
          var parameters := Union(loaded.request.parameters, map[FlashKey := flash]);
          Some(loaded.request.(parameters := parameters))
    }

    /**
     * Nothing when the lookup fails; otherwise a redirect to the stored URL,
     * with `_fid` set to the presenter's flash id when it has a flash session.
     */
    function RestoreRequest(key: string, presenter: Presenter): (o: Outcome)
      reads session
      ensures o.NoOp? <==> LoadRequestFromSession(key).None?
      ensures o.Redirect? ==>
        var stored := session.data[key].url;
        && o.target.location == stored.location
        && (!presenter.HasFlashSession() ==> o.target == stored)
        && (presenter.HasFlashSession() ==>
              && QueryParameter(o.target, FlashKey) == Some(FlashValue(presenter))
              && forall n :: n != FlashKey ==> QueryParameter(o.target, n) == QueryParameter(stored, n))
    {
      match LoadRequestFromSession(key)
      case None => NoOp
      case Some(loaded) =>
        if presenter.HasFlashSession() then
          Redirect(AppendQuery(loaded.url, FlashKey, FlashValue(presenter)))
        else
          Redirect(loaded.url)
    }
  }

  /**
   * The redirect of restoreRequest leads back: on the next request, served
   * with the same session and user at the redirect's URL, getRequest finds the
   * same entry by the `_rid` the URL carries, and the presenter's flash id
   * joins the parameters unless the request already had one.
   */
  lemma RedirectIsRecognised(s: RequestStash, key: string, presenter: Presenter, next: RequestStash)
    requires WellFormed(s.session)
    requires next.session == s.session && next.userId == s.userId
    requires s.RestoreRequest(key, presenter).Redirect?
    requires next.httpUrl == s.RestoreRequest(key, presenter).target
    ensures
      var stored := s.session.data[key].request;
      var r := next.GetRequest(next.httpUrl);
      && r.Some?
      && r.value.HasFlag(Restored)
      && (forall k :: k in stored.parameters ==> r.value.parameters[k] == stored.parameters[k])
      && (presenter.HasFlashSession() && FlashKey !in stored.parameters ==>
            r.value.parameters[FlashKey] == FlashValue(presenter))
  {
  }

  /**
   * The string restoreRequest builds for the redirect (the stored URL followed by
   * `&_fid=` and the flash id) is the rendering of the modelled redirect URL.
   */
  lemma RedirectText(s: RequestStash, key: string, presenter: Presenter)
    requires WellFormed(s.session)
    requires s.RestoreRequest(key, presenter).Redirect? && presenter.HasFlashSession()
    ensures Render(s.RestoreRequest(key, presenter).target) ==
      Render(s.session.data[key].url) + "&" + FlashKey + "=" + FlashValue(presenter)
  {
    var stored := s.session.data[key].url;
    assert stored.query != [] by {
      assert QueryParameter(stored, RequestKey).Some?;
    }
    RenderAppend(stored, FlashKey, FlashValue(presenter));
  }

  /** A request without `_rid` names no stashed request: stored keys are never empty. */
  lemma MissingKeyFindsNothing(s: RequestStash, httpRequest: Url)
    requires WellFormed(s.session)
    requires QueryParameter(httpRequest, RequestKey).None?
    ensures s.GetRequest(httpRequest).None?
  {
  }

  /**
   * Successive stores return pairwise distinct keys: store i takes a key
   * outside the section as it was (`taken[i]`) and adds exactly that key.
   */
  lemma {:induction false} SuccessiveKeysDistinct(taken: seq<set<string>>, keys: seq<string>)
    requires |taken| == |keys| + 1
    requires forall i :: 0 <= i < |keys| ==> keys[i] !in taken[i] && taken[i + 1] == taken[i] + {keys[i]}
    ensures forall i, j :: 0 <= i < j < |keys| ==> keys[i] != keys[j]
  {
    forall i, j | 0 <= i < j < |keys|
      ensures keys[i] != keys[j]
    {
      KeyStaysTaken(taken, keys, i, j);
    }
  }

  lemma {:induction false} KeyStaysTaken(taken: seq<set<string>>, keys: seq<string>, i: nat, j: nat)
    requires |taken| == |keys| + 1
    requires forall i :: 0 <= i < |keys| ==> keys[i] !in taken[i] && taken[i + 1] == taken[i] + {keys[i]}
    requires i < j <= |keys|
    ensures keys[i] in taken[j]
    decreases j - i
  {
    if j > i + 1 {
      KeyStaysTaken(taken, keys, i, j - 1);
    }
  }
}
