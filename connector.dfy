/**
  The Google Groups connector: a configuration fixed at construction, a cookie
  store that the session operations replace and clear, and the roster queries.
  Every network step is an input: the cookie store the HTTP client holds after
  the log-in or log-out request, the title of the page reached, and the name and
  lines of the file the export request downloads.
 */
module Connector {
  import opened Wrappers
  import opened Session
  import opened Roster

  const LoginEndpoint: string :=
    "https://accounts.google.com/ServiceLogin?continue=https%3A%2F%2Fgroups.google.com%2Fd%2Foverview&hl=en&service=groups2&passive=true"
  const LogoutEndpoint: string := "https://accounts.google.com/Logout?hl=en"
  const ExportPrefix: string := "https://groups.google.com/forum/exportmembers/"

  /** The title of the log-in page, which a completed log-out must land on. */
  const LoginPageTitle: string := "Google Accounts"

  /** The member export URL of a group: the export template filled with the group id. */
  function ExportEndpoint(group: string): (url: string)
    ensures |url| == |ExportPrefix| + |group|
    ensures url[..|ExportPrefix|] == ExportPrefix && url[|ExportPrefix|..] == group
  {
    ExportPrefix + group
  }

  /** Different groups are exported from different URLs. */
  lemma ExportEndpointInjective(g1: string, g2: string)
    requires ExportEndpoint(g1) == ExportEndpoint(g2)
    ensures g1 == g2
  {
    assert g1 == ExportEndpoint(g1)[|ExportPrefix|..];
  }

  datatype UserDetails = UserDetails(username: string)

  /** The detail record of a membership query: `{exists: found, details: {username: ...}}`. */
  datatype ExistsInfo = ExistsInfo(found: bool, details: UserDetails)

  /** The membership test behind `exists`: exact match against the listed user names. */
  function Lookup(userid: string, usernames: seq<string>): (r: (bool, ExistsInfo))
    ensures r.0 <==> exists k :: 0 <= k < |usernames| && usernames[k] == userid
    ensures r.1 == ExistsInfo(r.0, UserDetails(userid))
  {
    var found := userid in usernames;
    (found, ExistsInfo(found, UserDetails(userid)))
  }

  /**
    Against a decoded export, a user exists exactly when some data row's address
    has that user as its local part.
   */
  lemma LookupMatchesRoster(userid: string, lines: seq<string>)
    requires Usernames(lines).Success?
    ensures forall k :: 0 <= k < |DataRows(Body(lines))| ==> RowEmail(Header(lines), DataRows(Body(lines))[k]).Success?
    ensures Lookup(userid, Usernames(lines).value).0 <==>
      exists k :: 0 <= k < |DataRows(Body(lines))| &&
        LocalPart(RowEmail(Header(lines), DataRows(Body(lines))[k]).value) == userid
  {
    UsernamesOfRowsMeaning(Header(lines), DataRows(Body(lines)));
  }

  /** An export with no data rows answers every query with false, in the same record shape. */
  lemma EmptyRosterHasNoMembers(userid: string, banner: string, header: string, blanks: seq<string>)
    requires forall i :: 0 <= i < |blanks| ==> blanks[i] == ""
    ensures Usernames([banner, header] + blanks).Success?
    ensures Lookup(userid, Usernames([banner, header] + blanks).value) == (false, ExistsInfo(false, UserDetails(userid)))
  {
    EmptyRoster(banner, header, blanks);
  }

  class GoogleGroupsFree {
    const user: string
    const password: string
    const group: string
    const exportEndpoint: string

    /** The HTTP client's cookie jar, as domain -> path -> cookie names. */
    var cookies: Store

    /** Downloaded export files still on disk. */
    var tempFiles: set<string>

    constructor (user: string, password: string, group: string)
      ensures this.user == user && this.password == password && this.group == group
      ensures exportEndpoint == ExportEndpoint(group)
      ensures cookies == map[] && tempFiles == {}
    {
      this.user := user;
      this.password := password;
      this.group := group;
      this.exportEndpoint := ExportEndpoint(group);
      cookies := map[];
      tempFiles := {};
    }

    /**
      Logs in. `afterLogin` is the jar the HTTP client holds once the log-in form is
      submitted; success is decided by the fingerprint alone, and the check leaves
      the jar as the request left it.
     */
    method Authenticate(afterLogin: Store) returns (r: Outcome<SessionError>)
      modifies this`cookies
      ensures cookies == afterLogin
      ensures r.Pass? <==> FingerprintPresent(cookies)
      ensures r.Fail? ==> r.error == LoginFailed(GoogleComNames)
    {
      cookies := afterLogin;
      var ok := CheckFingerprint(cookies);
      r := if ok then Pass else Fail(LoginFailed(GoogleComNames));
    }

    /**
      Logs out. `afterLogout` is the jar once the log-out page is fetched and `title`
      that page's title. Surviving fingerprint cookies fail first, a wrong title
      second; only a log-out that passes both clears the whole jar.
     */
    method Logout(afterLogout: Store, title: string) returns (r: Outcome<SessionError>)
      modifies this`cookies
      ensures r.Pass? <==> Remaining(afterLogout) == Success([]) && title == LoginPageTitle
      ensures Remaining(afterLogout).Failure? ==> r == Fail(Remaining(afterLogout).error)
      ensures Remaining(afterLogout).Success? && Remaining(afterLogout).value != [] ==>
        r == Fail(CookiesStillExist(Remaining(afterLogout).value))
      ensures Remaining(afterLogout) == Success([]) && title != LoginPageTitle ==> r == Fail(EndFlowMissing)
      ensures cookies == if r.Pass? then map[] else afterLogout
    {
      cookies := afterLogout;
      var left := ListRemaining(cookies);
      if left.Failure? {
        return Fail(left.error);
      }
      if left.value != [] {
        return Fail(CookiesStillExist(left.value));
      }
      if title != LoginPageTitle {
        return Fail(EndFlowMissing);
      }
      cookies := map[];
      r := Pass;
    }

    /**
      Lists every member's user name from the downloaded export `filename` whose
      lines are `lines`. The file is removed once its banner line has been read;
      an empty file stops the call before that, so the file stays.
     */
    method GetAllUsernames(filename: string, lines: seq<string>) returns (r: Result<seq<string>, RosterError>)
      modifies this`tempFiles
      ensures r == Usernames(lines)
      ensures tempFiles == if lines == [] then old(tempFiles) + {filename} else old(tempFiles) - {filename}
    {
      tempFiles := tempFiles + {filename};
      if lines == [] {
        return Failure(EmptyExport);
      }
      var header := Header(lines);
      var rows := DataRows(Body(lines));
      tempFiles := tempFiles - {filename};
      r := ExtractUsernames(header, rows);
    }

    /** Whether `userid` is a member, with the detail record; a failed listing propagates. */
    method Exists(userid: string, filename: string, lines: seq<string>) returns (r: Result<(bool, ExistsInfo), RosterError>)
      modifies this`tempFiles
      ensures r.Success? <==> Usernames(lines).Success?
      ensures r.Success? ==> r.value.0 == (userid in Usernames(lines).value)
      ensures r.Success? ==> r.value.1 == ExistsInfo(r.value.0, UserDetails(userid))
      ensures r.Failure? ==> r.error == Usernames(lines).error
      ensures tempFiles == if lines == [] then old(tempFiles) + {filename} else old(tempFiles) - {filename}
    {
      var names := GetAllUsernames(filename, lines);
      if names.Failure? {
        return Failure(names.error);
      }
      r := Success(Lookup(userid, names.value));
    }
  }

  /**
    The session lifecycle as the host drives it: a log-in whose jar carries the
    fingerprint succeeds, a log-out request that removes nothing is refused and
    keeps the jar, and a log-out that removes the fingerprint and lands on the
    log-in page clears the jar.
   */
  method SessionLifecycle(afterLogin: Store, afterLogout: Store)
    requires FingerprintPresent(afterLogin)
    requires !Malformed(afterLogout) && SurvivorReport(afterLogout) == []
  {
    var c := new GoogleGroupsFree("user", "secret", "test");
    var login := c.Authenticate(afterLogin);
    assert login == Pass;
    FingerprintIsListedInFull(afterLogin);
    var stale := c.Logout(afterLogin, LoginPageTitle);
    assert stale == Fail(CookiesStillExist(AuthCookieIds)) && c.cookies == afterLogin;
    RemainingListsEachSurvivorOnce(afterLogout);
    var done := c.Logout(afterLogout, LoginPageTitle);
    assert done == Pass && c.cookies == map[];
    assert !FingerprintPresent(c.cookies);
  }
}
