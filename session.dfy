/**
  The session-phase checks of the connector. The HTTP client's cookie jar is seen
  as a map from domain to path to the names of the cookies stored there; the
  session phase is never stored, it is read off this map against a fixed
  "fingerprint" of six cookies.
 */
module Session {
  import opened Wrappers

  type Domain = string
  type Path = string
  type Name = string

  /** Domain -> path -> names of the cookies stored under that domain and path. */
  type Store = map<Domain, map<Path, set<Name>>>

  const GoogleCom: Domain := ".google.com"
  const Accounts: Domain := "accounts.google.com"
  const Root: Path := "/"

  /** The fingerprint cookies under `.google.com` and `/`, in the order they are checked. */
  const GoogleComNames: seq<Name> := ["APISID", "SSID", "SAPISID", "SID", "HSID"]

  /** The fingerprint cookie under `accounts.google.com` and `/`. */
  const LoginSid: Name := "LSID"

  datatype SessionError =
    /** Log in failed: the fingerprint is incomplete; carries the `.google.com` names required. */
    | LoginFailed(required: seq<Name>)
    /** Log out failed: these fingerprint cookies, as `domain:/:name`, survived the request. */
    | CookiesStillExist(remaining: seq<string>)
    /** Log out failed: the page reached is not the log-in page. */
    | EndFlowMissing
    /** A domain is in the jar without the path: the lookup raises a KeyError nobody catches. */
    | MissingPath(domain: Domain, path: Path)

  /** The authentication fingerprint: all five `.google.com` names and LSID, each under `/`. */
  predicate FingerprintPresent(store: Store)
  {
    && GoogleCom in store && Root in store[GoogleCom]
    && (forall n :: n in GoogleComNames ==> n in store[GoogleCom][Root])
    && Accounts in store && Root in store[Accounts]
    && LoginSid in store[Accounts][Root]
  }

  /**
    The check phase of log-in. A missing domain or path raises a KeyError that is
    caught and reported as the same failure as a missing name, so the check is a
    plain yes or no, and it only reads the store.
   */
  method CheckFingerprint(store: Store) returns (ok: bool)
    ensures ok <==> FingerprintPresent(store)
  {
    if GoogleCom !in store || Root !in store[GoogleCom] {
      return false;
    }
    var jar := store[GoogleCom][Root];
    var i := 0;
    while i < |GoogleComNames|
      invariant 0 <= i <= |GoogleComNames|
      invariant forall k :: 0 <= k < i ==> GoogleComNames[k] in jar
    {
      if GoogleComNames[i] !in jar {
        return false;
      }
      i := i + 1;
    }
    ok := Accounts in store && Root in store[Accounts] && LoginSid in store[Accounts][Root];
  }

  /** How a surviving cookie is reported: `domain:/:name`. */
  function Qualified(domain: Domain, name: Name): string
  {
    domain + ":/:" + name
  }

  /** The report of each name of `names` held in `jar`, in the order of `names`. */
  function StillPresent(domain: Domain, names: seq<Name>, jar: set<Name>): seq<string>
  {
    if names == [] then []
    else
      var last := names[|names| - 1];
      StillPresent(domain, names[..|names| - 1], jar) + (if last in jar then [Qualified(domain, last)] else [])
  }

  /**
    The list the log-out check builds: the surviving `.google.com` fingerprint cookies
    (only when that domain is in the jar), then LSID (only when `accounts.google.com`
    is in the jar). A domain that is present without a `/` entry raises a KeyError.
   */
  function Remaining(store: Store): Result<seq<string>, SessionError>
  {
    if GoogleCom in store && Root !in store[GoogleCom] then Failure(MissingPath(GoogleCom, Root))
    else if Accounts in store && Root !in store[Accounts] then Failure(MissingPath(Accounts, Root))
    else
      var google := if GoogleCom in store then StillPresent(GoogleCom, GoogleComNames, store[GoogleCom][Root]) else [];
      var accounts := if Accounts in store && LoginSid in store[Accounts][Root] then [Qualified(Accounts, LoginSid)] else [];
      Success(google + accounts)
  }

  /** The check phase of log-out: collects the fingerprint cookies still in the jar. */
  method ListRemaining(store: Store) returns (r: Result<seq<string>, SessionError>)
    ensures r == Remaining(store)
  {
    var found: seq<string> := [];
    if GoogleCom in store {
      if Root !in store[GoogleCom] {
        return Failure(MissingPath(GoogleCom, Root));
      }
      var jar := store[GoogleCom][Root];
      var i := 0;
      while i < |GoogleComNames|
        invariant 0 <= i <= |GoogleComNames|
        invariant found == StillPresent(GoogleCom, GoogleComNames[..i], jar)
      {
        if GoogleComNames[i] in jar {
          found := found + [Qualified(GoogleCom, GoogleComNames[i])];
        }
        assert GoogleComNames[..i + 1][..i] == GoogleComNames[..i];
        i := i + 1;
      }
      assert GoogleComNames[..i] == GoogleComNames;
    }
    ghost var google := found;
    if Accounts in store {
      if Root !in store[Accounts] {
        return Failure(MissingPath(Accounts, Root));
      }
      if LoginSid in store[Accounts][Root] {
        found := found + [Qualified(Accounts, LoginSid)];
      }
    }
    assert found == google + (if Accounts in store && LoginSid in store[Accounts][Root] then [Qualified(Accounts, LoginSid)] else []);
    r := Success(found);
  }

  /** `[domain:/:name]` when that cookie is in the jar under `/`, otherwise `[]`. */
  function Entry(store: Store, domain: Domain, name: Name): seq<string>
  {
    if domain in store && Root in store[domain] && name in store[domain][Root] then [Qualified(domain, name)] else []
  }

  /** A domain of the fingerprint is in the jar without a `/` entry. */
  predicate Malformed(store: Store)
  {
    (GoogleCom in store && Root !in store[GoogleCom]) || (Accounts in store && Root !in store[Accounts])
  }

  /**
    Reference definition of the log-out report, cookie by cookie: one entry for each
    fingerprint cookie still in the jar, in the fixed order of the check.
   */
  function SurvivorReport(store: Store): seq<string>
  {
    Entry(store, GoogleCom, "APISID") + Entry(store, GoogleCom, "SSID") + Entry(store, GoogleCom, "SAPISID")
    + Entry(store, GoogleCom, "SID") + Entry(store, GoogleCom, "HSID") + Entry(store, Accounts, LoginSid)
  }

  /** The six fingerprint entries in the order the log-out check visits them. */
  const AuthCookieIds: seq<string> := [
    ".google.com:/:APISID", ".google.com:/:SSID", ".google.com:/:SAPISID",
    ".google.com:/:SID", ".google.com:/:HSID", "accounts.google.com:/:LSID"]

  /**
    The log-out list has exactly one entry per fingerprint cookie still present, in
    the fixed order APISID, SSID, SAPISID, SID, HSID, then LSID; it is an error
    exactly when a fingerprint domain has no `/` entry.
   */
  lemma {:induction false} RemainingListsEachSurvivorOnce(store: Store)
    ensures Remaining(store).Failure? <==> Malformed(store)
    ensures !Malformed(store) ==> Remaining(store).value == SurvivorReport(store)
  {
    if !Malformed(store) && GoogleCom in store {
      var jar := store[GoogleCom][Root];
      var ns := GoogleComNames;
      assert ns[..5][..4] == ns[..4] && ns[..4][..3] == ns[..3] && ns[..3][..2] == ns[..2];
      assert ns[..2][..1] == ns[..1] && ns[..1][..0] == [];
      assert ns[..5] == ns;
      calc {
        StillPresent(GoogleCom, ns, jar);
        StillPresent(GoogleCom, ns[..4], jar) + Entry(store, GoogleCom, "HSID");
        StillPresent(GoogleCom, ns[..3], jar) + Entry(store, GoogleCom, "SID") + Entry(store, GoogleCom, "HSID");
        StillPresent(GoogleCom, ns[..2], jar) + Entry(store, GoogleCom, "SAPISID")
          + Entry(store, GoogleCom, "SID") + Entry(store, GoogleCom, "HSID");
        StillPresent(GoogleCom, ns[..1], jar) + Entry(store, GoogleCom, "SSID") + Entry(store, GoogleCom, "SAPISID")
          + Entry(store, GoogleCom, "SID") + Entry(store, GoogleCom, "HSID");
        Entry(store, GoogleCom, "APISID") + Entry(store, GoogleCom, "SSID") + Entry(store, GoogleCom, "SAPISID")
          + Entry(store, GoogleCom, "SID") + Entry(store, GoogleCom, "HSID");
      }
    }
  }

  /** The six reports, spelled out. */
  lemma QualifiedFingerprint()
    ensures Qualified(GoogleCom, "APISID") == AuthCookieIds[0]
    ensures Qualified(GoogleCom, "SSID") == AuthCookieIds[1]
    ensures Qualified(GoogleCom, "SAPISID") == AuthCookieIds[2]
    ensures Qualified(GoogleCom, "SID") == AuthCookieIds[3]
    ensures Qualified(GoogleCom, "HSID") == AuthCookieIds[4]
    ensures Qualified(Accounts, LoginSid) == AuthCookieIds[5]
  {
  }

  /**
    Right after a successful log-in, a log-out request that removed nothing is
    caught: the check lists all six fingerprint cookies.
   */
  lemma FingerprintIsListedInFull(store: Store)
    requires FingerprintPresent(store)
    ensures Remaining(store) == Success(AuthCookieIds)
  {
    RemainingListsEachSurvivorOnce(store);
    assert "APISID" in GoogleComNames && "SSID" in GoogleComNames && "SAPISID" in GoogleComNames;
    assert "SID" in GoogleComNames && "HSID" in GoogleComNames;
    assert !Malformed(store);
    QualifiedFingerprint();
    assert Entry(store, GoogleCom, "APISID") == [".google.com:/:APISID"];
    assert Entry(store, GoogleCom, "SSID") == [".google.com:/:SSID"];
    assert Entry(store, GoogleCom, "SAPISID") == [".google.com:/:SAPISID"];
    assert Entry(store, GoogleCom, "SID") == [".google.com:/:SID"];
    assert Entry(store, GoogleCom, "HSID") == [".google.com:/:HSID"];
    assert Entry(store, Accounts, LoginSid) == ["accounts.google.com:/:LSID"];
    assert SurvivorReport(store) == AuthCookieIds;
  }

  /**
    The log-out check passes its cookie test exactly when no fingerprint cookie is
    left, and then the fingerprint is absent.
   */
  lemma EmptyListingMeansLoggedOut(store: Store)
    ensures Remaining(store) == Success([]) <==>
      && !Malformed(store)
      && (forall n :: n in GoogleComNames ==> Entry(store, GoogleCom, n) == [])
      && Entry(store, Accounts, LoginSid) == []
    ensures Remaining(store) == Success([]) ==> !FingerprintPresent(store)
  {
    RemainingListsEachSurvivorOnce(store);
    if Remaining(store) == Success([]) {
      forall n | n in GoogleComNames
        ensures Entry(store, GoogleCom, n) == []
      {
        assert n == "APISID" || n == "SSID" || n == "SAPISID" || n == "SID" || n == "HSID";
      }
      assert "APISID" in GoogleComNames;
    }
  }

  /** A partial log-out that leaves SID and HSID is reported as exactly those two, in that order. */
  lemma PartialLogoutReport(others: set<Name>, accountsJar: set<Name>)
    requires forall n :: n in GoogleComNames ==> n !in others
    requires LoginSid !in accountsJar
    ensures Remaining(map[GoogleCom := map[Root := others + {"SID", "HSID"}], Accounts := map[Root := accountsJar]])
      == Success([".google.com:/:SID", ".google.com:/:HSID"])
  {
    var store := map[GoogleCom := map[Root := others + {"SID", "HSID"}], Accounts := map[Root := accountsJar]];
    RemainingListsEachSurvivorOnce(store);
    QualifiedFingerprint();
    assert "APISID" in GoogleComNames && "SSID" in GoogleComNames && "SAPISID" in GoogleComNames;
    assert Entry(store, GoogleCom, "APISID") == [] && Entry(store, GoogleCom, "SSID") == [];
    assert Entry(store, GoogleCom, "SAPISID") == [] && Entry(store, Accounts, LoginSid) == [];
    assert Entry(store, GoogleCom, "SID") == [".google.com:/:SID"];
    assert Entry(store, GoogleCom, "HSID") == [".google.com:/:HSID"];
    assert !Malformed(store);
    assert SurvivorReport(store) == [".google.com:/:SID", ".google.com:/:HSID"];
  }
}
