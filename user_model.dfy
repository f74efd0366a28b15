// The account methods of the user model (src/models/User.ts): the permission
// check on shared accounts and the bounded login history.

module Accounts {

  import opened Wrappers

  /** A shared account: the owner's id, its name and the granted permissions. */
  datatype SharedAccount = SharedAccount(accountId: string, accountName: string, permissions: seq<string>)

  /** One login record; the time is a clock reading in milliseconds. */
  datatype LoginRecord = LoginRecord(timestamp: int, ipAddress: string, userAgent: string)

  /** The most entries the login history keeps. */
  const HistoryLimit: nat := 10

  /** sharedAccounts.find: the first shared account with the id. */
  function FindShared(accounts: seq<SharedAccount>, accountId: string): (r: Option<SharedAccount>)
    ensures r.None? <==> forall i :: 0 <= i < |accounts| ==> accounts[i].accountId != accountId
    ensures r.Some? ==>
      exists i :: 0 <= i < |accounts| && accounts[i] == r.value && r.value.accountId == accountId
        && forall j :: 0 <= j < i ==> accounts[j].accountId != accountId
  {
    if |accounts| == 0 then None
    else if accounts[0].accountId == accountId then Some(accounts[0])
    else
      var r := FindShared(accounts[1..], accountId);
      if r.Some? then
        var i :| 0 <= i < |accounts| - 1 && accounts[1..][i] == r.value
          && forall j :: 0 <= j < i ==> accounts[1..][j].accountId != accountId;
        assert accounts[i + 1] == r.value;
        assert forall j :: 0 <= j < i + 1 ==> accounts[j].accountId != accountId;
        r
      else
        assert forall j :: 0 <= j < |accounts| - 1 ==> accounts[1..][j] == accounts[j + 1];
        r
  }

  /** hasPermission: the first shared account with the id grants "admin" or the permission itself. */
  function HasPermission(accounts: seq<SharedAccount>, accountId: string, permission: string): bool {
    var a := FindShared(accounts, accountId);
    a.Some? && ("admin" in a.value.permissions || permission in a.value.permissions)
  }

  /** No shared account, no permission; "admin" grants every permission; otherwise the permission
      must be listed in the first shared account with the id, whatever later ones list. */
  lemma PermissionFacts(accounts: seq<SharedAccount>, accountId: string, permission: string)
    ensures (forall i :: 0 <= i < |accounts| ==> accounts[i].accountId != accountId) ==>
      !HasPermission(accounts, accountId, permission)
    ensures forall i :: (0 <= i < |accounts| && accounts[i].accountId == accountId
      && (forall j :: 0 <= j < i ==> accounts[j].accountId != accountId)) ==>
        (HasPermission(accounts, accountId, permission)
         <==> "admin" in accounts[i].permissions || permission in accounts[i].permissions)
  {
    forall i | 0 <= i < |accounts| && accounts[i].accountId == accountId
      && (forall j :: 0 <= j < i ==> accounts[j].accountId != accountId)
      ensures FindShared(accounts, accountId) == Some(accounts[i])
    {
      var a := FindShared(accounts, accountId);
      var k :| 0 <= k < |accounts| && accounts[k] == a.value && a.value.accountId == accountId
        && forall j :: 0 <= j < k ==> accounts[j].accountId != accountId;
      if k < i {
        assert false;
      } else if i < k {
        assert false;
      }
    }
  }

  /** An admin grant implies every permission on that account. */
  lemma AdminGrantsAll(accounts: seq<SharedAccount>, accountId: string)
    requires HasPermission(accounts, accountId, "admin")
    ensures forall permission :: HasPermission(accounts, accountId, permission)
  {
  }

  /** push, then slice(-10) when longer than ten. */
  function KeepLast(history: seq<LoginRecord>, record: LoginRecord): (r: seq<LoginRecord>)
  {
    var h := history + [record];
    if |h| > HistoryLimit then h[|h| - HistoryLimit..] else h
  }

  /** The kept history is at most ten long, ends with the new login, and is the most recent part
      of the old history followed by it, in order; nothing is dropped while there is room. */
  lemma KeepLastFacts(history: seq<LoginRecord>, record: LoginRecord)
    ensures var r := KeepLast(history, record);
      |r| <= HistoryLimit && |r| > 0 && r[|r| - 1] == record
      && r[..|r| - 1] == history[|history| - (|r| - 1)..]
      && (|history| < HistoryLimit ==> r == history + [record])
      && (|history| >= HistoryLimit ==> |r| == HistoryLimit)
  {
    var h := history + [record];
    var r := KeepLast(history, record);
    assert r[..|r| - 1] == h[|h| - |r|..|h| - 1];
  }

  /** The history after a series of logins. */
  function AfterLogins(history: seq<LoginRecord>, logins: seq<LoginRecord>): seq<LoginRecord>
    decreases |logins|
  {
    if |logins| == 0 then history
    else KeepLast(AfterLogins(history, logins[..|logins| - 1]), logins[|logins| - 1])
  }

  /** The last ten records of a history (all of it when shorter). */
  function Recent(s: seq<LoginRecord>): (r: seq<LoginRecord>)
    ensures |r| <= HistoryLimit
  {
    if |s| > HistoryLimit then s[|s| - HistoryLimit..] else s
  }

  /** Trimming before a push loses nothing the trim after it would keep. */
  lemma RecentSnoc(s: seq<LoginRecord>, x: LoginRecord)
    ensures Recent(Recent(s) + [x]) == Recent(s + [x])
  {
    if |s| > HistoryLimit {
      var t := s[|s| - HistoryLimit..] + [x];
      assert t[1..] == s[|s| - HistoryLimit + 1..] + [x];
      assert (s + [x])[|s| + 1 - HistoryLimit..] == s[|s| - HistoryLimit + 1..] + [x];
    }
  }

  /** However many logins come, the history is exactly the last ten of everything recorded. */
  lemma {:induction false} AfterLoginsKeepsRecent(history: seq<LoginRecord>, logins: seq<LoginRecord>)
    requires |logins| > 0
    ensures AfterLogins(history, logins) == Recent(history + logins)
  {
    var n := |logins| - 1;
    var front := logins[..n];
    var x := logins[n];
    assert history + logins == (history + front) + [x];
    if n == 0 {
      assert front == [];
      assert history + front == history;
    } else {
      AfterLoginsKeepsRecent(history, front);
      RecentSnoc(history + front, x);
    }
  }

  /** The login state of a user document. */
  class User {
    var sharedAccounts: seq<SharedAccount>
    var isActive: bool
    var lastLogin: int
    var loginHistory: seq<LoginRecord>

    constructor (sharedAccounts: seq<SharedAccount>, now: int)
      ensures this.sharedAccounts == sharedAccounts && isActive && lastLogin == now && loginHistory == []
    {
      this.sharedAccounts := sharedAccounts;
      isActive := true;
      lastLogin := now;
      loginHistory := [];
    }

    /** trackLogin, with the clock reading as a parameter. */
    method TrackLogin(now: int, ipAddress: string, userAgent: string)
      modifies this
      ensures lastLogin == now && isActive
      ensures loginHistory == KeepLast(old(loginHistory), LoginRecord(now, ipAddress, userAgent))
      ensures sharedAccounts == old(sharedAccounts)
    {
      lastLogin := now;
      isActive := true;
      loginHistory := loginHistory + [LoginRecord(now, ipAddress, userAgent)];
      if |loginHistory| > HistoryLimit {
        loginHistory := loginHistory[|loginHistory| - HistoryLimit..];
      }
    }
  }
}
