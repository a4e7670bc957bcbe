/**
 * The HTTP collaborators of the request stash: absolute URLs with their query
 * strings, and a session section (a string-keyed table whose entries carry
 * their own expiration).
 */
module Http {
  import opened Wrappers

  /** One `name=value` pair of a query string, kept in the order it is written. */
  datatype Param = Param(name: string, value: string)

  /** An absolute URL: everything before the query (scheme, authority, path) and the query pairs. */
  datatype Url = Url(location: string, query: seq<Param>)

  /** A relative expiration time such as "+ 10 minutes". */
  type Expiration = string

  /**
   * The value of query parameter `name` as a query parser reads it: absent
   * gives None (NULL), and when the name is repeated the last occurrence wins.
   */
  function Lookup(query: seq<Param>, name: string): (r: Option<string>)
    ensures r.None? <==> forall i :: 0 <= i < |query| ==> query[i].name != name
    ensures r.Some? ==>
      exists i :: 0 <= i < |query| && query[i] == Param(name, r.value) &&
        forall j :: i < j < |query| ==> query[j].name != name
    decreases |query|
  {
    if query == [] then None
    else if query[|query| - 1].name == name then Some(query[|query| - 1].value)
    else
      var front := query[..|query| - 1];
      assert forall j :: 0 <= j < |front| ==> front[j] == query[j];
      Lookup(front, name)
  }

  function QueryParameter(url: Url, name: string): Option<string> {
    Lookup(url.query, name)
  }

  /**
   * The URL with `name=value` appended to its query. A later lookup of `name`
   * finds `value`; every other parameter reads as before.
   */
  function AppendQuery(url: Url, name: string, value: string): (r: Url)
    ensures r.location == url.location && r.query != []
    ensures QueryParameter(r, name) == Some(value)
    ensures forall n :: n != name ==> QueryParameter(r, n) == QueryParameter(url, n)
  {
    var query := url.query + [Param(name, value)];
    assert query[..|query| - 1] == url.query;
    Url(url.location, query)
  }

  function PairText(p: Param): string {
    p.name + "=" + p.value
  }

  /** The query pairs joined by `&`. Percent-encoding is not modelled. */
  function Join(query: seq<Param>): string
    requires query != []
    decreases |query|
  {
    if |query| == 1 then PairText(query[0])
    else PairText(query[0]) + "&" + Join(query[1..])
  }

  /** The absolute URL as a string: the query part, when there is one, follows a `?`. */
  function Render(url: Url): string {
    url.location + (if url.query == [] then "" else "?" + Join(url.query))
  }

  lemma {:induction false} JoinAppend(query: seq<Param>, p: Param)
    requires query != []
    ensures Join(query + [p]) == Join(query) + "&" + PairText(p)
    decreases |query|
  {
    if |query| == 1 {
      assert (query + [p])[1..] == [p];
    } else {
      assert (query + [p])[1..] == query[1..] + [p];
      JoinAppend(query[1..], p);
    }
  }

  /**
   * On a URL that already has a query, appending a parameter is the same as
   * appending `&name=value` to the rendered string.
   */
  lemma RenderAppend(url: Url, name: string, value: string)
    requires url.query != []
    ensures Render(AppendQuery(url, name, value)) == Render(url) + "&" + name + "=" + value
  {
    JoinAppend(url.query, Param(name, value));
  }

  /** A named session section: a string-keyed table, each key with its own expiration. */
  class SessionSection<T> {
    var data: map<string, T>
    var expirations: map<string, Expiration>

    constructor ()
      ensures data == map[] && expirations == map[]
    {
      data := map[];
      expirations := map[];
    }

    /** `$section[name] = value` */
    method Set(name: string, value: T)
      modifies this
      ensures data == old(data)[name := value]
      ensures expirations == old(expirations)
    {
      data := data[name := value];
    }

    method SetExpiration(expiration: Expiration, name: string)
      modifies this
      ensures expirations == old(expirations)[name := expiration]
      ensures data == old(data)
    {
      expirations := expirations[name := expiration];
    }

    /** The session backend dropping an entry whose time is up. */
    method Expire(name: string)
      modifies this
      ensures data == old(data) - {name}
      ensures expirations == old(expirations) - {name}
    {
      data := data - {name};
      expirations := expirations - {name};
    }
  }
}
