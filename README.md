# RequestStash, modelled in Dafny

A model of the request stash of the Nette application layer (`RequestStash`).
The stash keeps application requests in the session section
`Nette.Application/requests` so that they can be replayed later, for example
after a login. Each entry sits under a random key and holds three things:

- the id of the user who stored it, or none for an anonymous user;
- the URL it was stored from, with `_rid=<key>` added;
- the request itself.

An entry is handed back only to its owner, or to anyone when it was stored
anonymously. It can be handed back in two ways: as a restored copy of the
request (`getRequest`), or as a redirect to its URL (`restoreRequest`).

Files:

- `wrappers.dfy`: `Option`, standing for PHP's NULL.
- `http.dfy`: the URL collaborator and the session section.
  - A URL is a location plus its query pairs, kept in order.
  - Looking up a query parameter takes the last occurrence of the name.
  - Appending to the query adds a pair at the end.
  - `Render` gives the absolute URL as a string.
  - `SessionSection<T>` is a class holding the section's table and each key's expiration.
- `application.dfy`: the application `Request` and its flags, what the stash reads from a presenter, and PHP's array union `+`.
- `stash.dfy`: the `RequestStash` class and the lemmas about it.
  - `StoreRequest` is a method that changes the section.
  - The three lookups are functions that read the section.

How the collaborators are modelled:

- **The random key generator.** The caller passes in the stream of keys it would draw, `draws`. `StoreRequest` requires that some draw in the stream is fresh. The PHP do-while terminates only under that condition.
- **The current HTTP request and the current user.** They are the `httpUrl` and `userId` fields of the stash. The URL is a value, so the clone taken before `_rid` is appended cannot change the current URL.
- **The presenter.** It is a value: whether it has a flash session, and its parameters.
- **The redirect.** The redirect-and-abort becomes the outcome `Redirect(target)`. Returning normally becomes `NoOp`.
- **User ids.** A user id is an int or a string. PHP's `!==` never equates the two, and neither does the model.
- **A missing `_rid`.** It is NULL, and NULL indexes a PHP array as `""`. Stored keys have length 5, so such a request finds nothing.
- **A missing `_fid` on the presenter.** It reads as the empty string when it is concatenated into the URL.
- **The stored URL.** `RequestStash.php` stores it as the rendered absolute string. Then `restoreRequest` appends `&_fid=<id>` to that string. The model keeps the URL as a value and appends the pair to its query. `RedirectText` proves that rendering the result gives exactly the string the PHP code builds.
- **Expiry.** It is `SessionSection.Expire`, which deletes the key. After that the lookup behaves exactly as it does for a key that was never stored.

What the model preserves as written:

- A successful lookup does not remove the entry. The same key can be restored again until it expires.
- `getRequest` merges the flash id with PHP's `+`. A `_fid` parameter the stored request already has wins over the current one.

## Model

| member | source | states |
|---|---|---|
| Stash.DrawFreshKey | src/Application/UI/RequestStash.php:51-53 | the retry loop returns the first draw of the random stream that is not already a key of the section |
| Stash.RequestStash.StoreRequest | src/Application/UI/RequestStash.php:48-64 | the returned key was not in the section before. The section gains exactly that key, mapped to {current user, current URL with `_rid=key`, request}. Every other entry is unchanged. The only other change is that key's expiration. The section invariant is kept. The new entry loads as a restored copy of the request, and its callback URL finds it |
| Stash.CallbackUrl | src/Application/UI/RequestStash.php:55-59 | the stored URL is the current URL with `_rid` reading as the key. Its location and every other parameter are as in the current URL |
| Stash.RequestStash.LoadRequestFromSession | src/Application/UI/RequestStash.php:117-128 | the lookup fails when the key is absent. An anonymous entry is returned whoever is current. An owned entry is returned exactly when the current user is its owner. On success it gives the stored URL and a copy of the request that differs only by the restored flag being set |
| Stash.RequestStash.GetRequest | src/Application/UI/RequestStash.php:93-109 | the key comes from `_rid`, and the result is NULL exactly when the lookup fails. Without `_fid` on the current URL, the restored copy keeps its parameters. With `_fid`, the parameters gain the `_fid` key. Every existing parameter keeps its value, and `_fid` takes the current flash id only when the request had none |
| Stash.RequestStash.RestoreRequest | src/Application/UI/RequestStash.php:74-85 | restoring is a no-op exactly when the lookup fails. Otherwise it redirects to the stored URL. With a flash session, `_fid` is added with the presenter's flash id and every other parameter reads as in the stored URL. Without one, the target is the stored URL unchanged |
| Stash.RedirectIsRecognised | src/Application/UI/RequestStash.php:81-106 | take the next request, served at the redirect's URL with the same session and user. `getRequest` finds the same entry there through `_rid`. The result is flagged restored, keeps every stored parameter, and carries the presenter's flash id when the request had no `_fid` |
| Stash.RedirectText | src/Application/UI/RequestStash.php:81-84 | the modelled redirect target renders as the stored URL string followed by `&_fid=` and the flash id |
| Stash.MissingKeyFindsNothing | src/Application/UI/RequestStash.php:95-99 | a request without `_rid` finds no entry in a well-formed section |
| Stash.SuccessiveKeysDistinct | src/Application/UI/RequestStash.php:51-57 | each store takes a key outside the section and adds exactly that key. So the keys returned by successive stores are pairwise distinct |
| Stash.RequestStash.constructor | src/Application/UI/RequestStash.php:34-39 | the stash holds the given current URL, session section and user id |
| Http.AppendQuery | src/Application/UI/RequestStash.php:59 | after `appendQuery`, the appended name reads as the appended value, and every other parameter reads as before |
| Http.Lookup | src/Application/UI/RequestStash.php:102 | a query parameter is absent exactly when no pair has its name. Otherwise its value is that of the last pair with the name |
| Http.RenderAppend | src/Application/UI/RequestStash.php:82 | on a URL with a query, appending a pair is the same as appending `&name=value` to the rendered string |
| Http.SessionSection.Set | src/Application/UI/RequestStash.php:57 | writing an entry maps that one key to the value and leaves the expirations unchanged |
| Http.SessionSection.SetExpiration | src/Application/UI/RequestStash.php:62 | setting an expiration changes that one key's expiration and leaves the entries unchanged |
| Http.SessionSection.Expire | src/Application/UI/RequestStash.php:62 | when the expiration that was set runs out, the key and its expiration are removed, and nothing else changes |
| Application.Request.SetFlag | src/Application/UI/RequestStash.php:125 | setting a flag gives the flag that value. Other flags, the name, the method, the parameters and the POST data are unchanged |
| Application.Union | src/Application/UI/RequestStash.php:105 | PHP's `+` keeps every key of both arrays. Where both sides have a key, the left value is kept |

## Left out

- Nette\Utils\Random is not part of this model. A key is any 5-character string taken from the caller's stream of draws, and the generator's alphabet is not modelled. The do-while's termination rests on the requirement that some draw is fresh.
- Expiration times: parsing `+ 10 minutes` and the wall clock belong to the session backend. An expiration is recorded as its text, and expiry is the explicit `Expire` operation.
- Nette\Http\Url is not part of this model.
  - Percent-encoding is not modelled, and neither is parsing a rendered URL back into pairs.
  - Fragments are not modelled; a request URL does not carry one.
  - Scheme, host and path are a single `location` string.
  - `appendQuery` is modelled as appending the pair to the query.
- The presenter's `redirectUrl`, its `AbortException`, `hasFlashSession` and `getParameter` are not modelled. Their results are inputs, and the abort is the `Redirect` outcome.
- Application request parameter values, POST data and flags are string or boolean maps. Uploaded files are not modelled, and neither is the object identity of the clone.
- Session persistence, per-site namespacing and concurrent access to one session are not modelled; they are the session backend's.
- `IRequestStash` declares only the three signatures that `RequestStash` implements, so it has no model of its own.
