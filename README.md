# Google Groups connector — session checks and roster decoding

A Dafny model of `GoogleGroupsFree`, the plugin of the ocupado user-directory
tool that logs into Google Groups by scraping, lists a group's members from the
exported roster and answers "does this user exist". Almost all of the class is
HTTP traffic; this project models the deterministic logic on top of it:

- **Session phase** (`session.dfy`, module `Session`). The cookie jar is a map
  from domain to path to cookie names. Log-in succeeds exactly when the
  fingerprint is present: APISID, SSID, SAPISID, SID and HSID under
  `.google.com` `/`, and LSID under `accounts.google.com` `/`. Log-out builds the
  list of fingerprint cookies that survived, as `domain:/:name`, in the fixed
  order of the check.
- **Roster decoding** (`roster.dfy`, module `Roster`). The first line of the
  export is skipped, the next is the CSV header, blank lines are skipped, and each
  data row gives the text of its `Email address` field before the first `@`.
  When the header names the column twice, the last one wins, as in a dictionary
  built from the header. A row too short to reach the column has no value there,
  and splitting it fails.
- **The connector** (`connector.dfy`, module `Connector`). The class
  `GoogleGroupsFree` holds the configuration, the cookie store and the set of
  downloaded files still on disk. `Authenticate` and `Logout` take the jar that
  the HTTP client holds after the request, and `Logout` also takes the title of
  the page reached. `GetAllUsernames` and `Exists` take the name and the lines of
  the downloaded export. The membership test is `Lookup`. `ExportEndpoint` gives
  the per-group export URL.
- `wrappers.dfy` holds `Option`, `Result` and `Outcome`. They stand for the
  exceptions the source raises.

The model follows the code in three places where its behaviour is narrower than
the connector's documented intent:
- The downloaded file is not removed on every path. It is removed only after
  its first line has been read. An empty file raises StopIteration inside the
  `with` block, and the unlink is skipped. Errors in the rows come later, because
  the CSV reader is lazy, so the file is already gone by then.
- Log-out compares the page title with the literal `Google Accounts`.
- A domain that is in the jar without a `/` entry makes log-out raise an uncaught
  KeyError (`MissingPath`). The same case makes log-in fail with its ordinary error.

## Model

| member | source | states |
|---|---|---|
| `Connector.GoogleGroupsFree.constructor` | src/ocupado_plugin_google_groups_free/__init__.py:58-69 | stores user, password and group; the export URL is built from the group; the cookie jar starts empty |
| `Connector.ExportEndpoint` | src/ocupado_plugin_google_groups_free/__init__.py:68 | the export URL is the fixed prefix of line 56 followed by exactly the group id |
| `Connector.ExportEndpointInjective` | src/ocupado_plugin_google_groups_free/__init__.py:68 | two groups with the same export URL are the same group |
| `Session.CheckFingerprint` | src/ocupado_plugin_google_groups_free/__init__.py:92-107 | reads the jar only and answers yes exactly when the five `.google.com` `/` names and LSID under `accounts.google.com` `/` are all present; a missing domain or path is a no |
| `Connector.GoogleGroupsFree.Authenticate` | src/ocupado_plugin_google_groups_free/__init__.py:78-107 | succeeds if and only if the jar after the log-in request carries the fingerprint; otherwise fails with the log-in error that names the required cookies; the check leaves the jar as the request left it |
| `Session.ListRemaining` | src/ocupado_plugin_google_groups_free/__init__.py:117-126 | the loop builds exactly the reference list of surviving fingerprint cookies, or the KeyError of a domain without a `/` entry |
| `Session.RemainingListsEachSurvivorOnce` | src/ocupado_plugin_google_groups_free/__init__.py:117-126 | the log-out list is an error exactly when a fingerprint domain lacks `/`; otherwise it has one `domain:/:name` entry per surviving fingerprint cookie, in the order APISID, SSID, SAPISID, SID, HSID, LSID, and nothing else |
| `Session.EmptyListingMeansLoggedOut` | src/ocupado_plugin_google_groups_free/__init__.py:117-130 | the list is empty if and only if no fingerprint cookie is left, and then the fingerprint is absent |
| `Session.FingerprintIsListedInFull` | src/ocupado_plugin_google_groups_free/__init__.py:117-130 | a jar that still carries the log-in fingerprint is reported with all six cookies, so log-out refuses it |
| `Session.PartialLogoutReport` | src/ocupado_plugin_google_groups_free/__init__.py:117-130 | if only SID and HSID survive, the report is exactly `['.google.com:/:SID', '.google.com:/:HSID']` |
| `Connector.GoogleGroupsFree.Logout` | src/ocupado_plugin_google_groups_free/__init__.py:109-136 | fails with the surviving-cookie list when it is non-empty; otherwise fails when the title is not `Google Accounts`; a KeyError propagates; succeeds exactly when no cookie survives and the title matches; only success clears the whole jar, and every failure keeps it |
| `Roster.Split` | src/ocupado_plugin_google_groups_free/__init__.py:167 | `str.split` with one separator always yields at least one piece |
| `Roster.JoinSplit` | src/ocupado_plugin_google_groups_free/__init__.py:167 | joining the pieces of a split gives back the string, and no piece holds the separator |
| `Roster.SplitJoin` | src/ocupado_plugin_google_groups_free/__init__.py:167 | splitting pieces that hold no separator, once joined, gives back the pieces |
| `Roster.LocalPartIsTextBeforeFirstAt` | src/ocupado_plugin_google_groups_free/__init__.py:167 | the user name is a prefix of the address without `@`, followed by the first `@` if any; an address without `@` is its own user name |
| `Roster.LocalPartOfAddress` | src/ocupado_plugin_google_groups_free/__init__.py:167 | the address `user@domain` gives back `user` when `user` has no `@` |
| `Roster.LastIndexOf` | src/ocupado_plugin_google_groups_free/__init__.py:162-167 | the column found for a header name is the last field with that name, and none exists exactly when the header lacks it |
| `Roster.ExtractUsernames` | src/ocupado_plugin_google_groups_free/__init__.py:166-168 | the append loop yields exactly the reference decoding of the rows, stopping at the first row that fails |
| `Roster.PrefixFailureIsFinal` | src/ocupado_plugin_google_groups_free/__init__.py:166-167 | once a row fails, the whole listing fails with that row's error |
| `Roster.UsernamesOfRowsMeaning` | src/ocupado_plugin_google_groups_free/__init__.py:166-168 | decoding succeeds if and only if every row reaches the e-mail column; it then yields one user name per row, in row order with duplicates kept, each the local part of that row's address; a failure is the missing-column error exactly when the header lacks the column |
| `Roster.BlankLinesAreSkipped` | src/ocupado_plugin_google_groups_free/__init__.py:159-162 | a blank line among the data lines adds no row |
| `Roster.EmptyRoster` | src/ocupado_plugin_google_groups_free/__init__.py:156-168 | an export holding only the banner, or the banner and a header followed by blank lines, lists no one |
| `Roster.TwoMemberRoster` | src/ocupado_plugin_google_groups_free/__init__.py:156-168 | a banner, a header with `Email address` and two rows `human@…` and `robot@…` decode to `["human", "robot"]`, whatever the banner and the domain |
| `Connector.GoogleGroupsFree.GetAllUsernames` | src/ocupado_plugin_google_groups_free/__init__.py:148-168 | returns the decoding of the downloaded lines, or its error; the file is removed unless the file is empty |
| `Connector.Lookup` | src/ocupado_plugin_google_groups_free/__init__.py:144-146 | the flag is true exactly when the user id equals some listed name; the detail record has the same shape on both outcomes and carries the queried id |
| `Connector.LookupMatchesRoster` | src/ocupado_plugin_google_groups_free/__init__.py:144-146 | against a decoded export, a user exists exactly when some data row's address has that user as its local part |
| `Connector.EmptyRosterHasNoMembers` | src/ocupado_plugin_google_groups_free/__init__.py:144-146 | with no data rows, every query answers `(false, {exists: false, details: {username: u}})` |
| `Connector.GoogleGroupsFree.Exists` | src/ocupado_plugin_google_groups_free/__init__.py:138-146 | succeeds exactly when the listing does; then the flag is exact membership of the id and the record mirrors it; a listing error propagates unchanged; the file is handled as by the listing |

## Left out

- The HTTP client: opening pages, choosing the first form, filling `Email` and `Passwd`, submitting, following redirects, gzip, referer and robots settings, and retrieving the export. Each network step is an input: the jar after the request, the page title, and the downloaded file's name and lines. The stored password is only a field.
- The text of the exception messages. The errors are typed values that carry the same payloads: the required `.google.com` names, or the surviving `domain:/:name` list.
- Cookie values, expiry and flags, and everything of the cookie jar beyond the domain → path → names view.
- CSV quoting, escaping and carriage returns. Fields are split at every comma. Lines come without their line terminators.
- The in-memory buffer that re-writes every line with an extra newline. The extra newlines only add blank rows, and blank rows are skipped, so the model passes the lines straight through.
- Opening the downloaded file and a failure to open it.
- The `_current_headers` property, the warnings filter and the module version.
- Files on disk are only a set of names. A downloaded file's contents on disk are not modelled.
