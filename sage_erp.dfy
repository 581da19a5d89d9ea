/** `db/sage_erp.py`: the session rows of the ERP database turned into the user
    report. Each row becomes a dictionary, the `AppUser` and `BIUser` flags are
    counted, the user name loses its domain, both timestamps are reformatted for
    display, a `sort_key` is parsed back from the last activity, and the list is
    sorted stably by that key. */
module SageErp {
  import opened Wrappers
  import opened Text
  import opened DateTimes
  import opened DatetimeFormat
  import opened Database

  /** A row as the driver hands it over, or one whose columns could not be read
      (`extract_row` raised). */
  datatype RawRow = Fetched(columns: seq<Column>) | Unreadable(reason: string)

  /** Why no report comes out. */
  datatype Failure =
    | DbError(message: string)                       // `DBError` from running or fetching the query
    | KeyMissing(key: string)                        // `KeyError` from a dictionary lookup
    | TimeDataMismatch(data: string, format: string) // `ValueError` from `strptime`

  /** Python's `str(err)` for each kind of failure. */
  function Describe(f: Failure): string
  {
    match f
    case DbError(message) => message
    case KeyMissing(key) => "'" + key + "'"
    case TimeDataMismatch(data, format) =>
      "time data '" + data + "' does not match format '" + format + "'"
  }

  const DisplayFormat := "%m/%d/%Y %I:%M %p"

  type Dict = map<string, string>

  /** A rewritten user dictionary: the string-valued entries, and the `sort_key`
      entry, which holds a datetime. */
  datatype UserRecord = UserRecord(fields: Dict, sortKey: DateTime)

  /** What the first loop appends for one row: the extracted dictionary, or the
      error placeholder. */
  function Extracted(row: RawRow): Dict
  {
    match row
    case Fetched(columns) => RowMap(columns)
    case Unreadable(reason) => map["error" := "Error extracting row: " + reason]
  }

  /** The first loop: one dictionary per row, in row order. */
  function ExtractAll(rows: seq<RawRow>): seq<Dict>
  {
    seq(|rows|, i requires 0 <= i < |rows| => Extracted(rows[i]))
  }

  /** The dictionary for an unreadable row holds only `error`, so it has no
      `appuser`; the dictionary for a fetched row is keyed by exactly the
      lower-cased column names. */
  lemma ExtractAllKeys(rows: seq<RawRow>, i: nat)
    requires i < |rows|
    ensures |ExtractAll(rows)| == |rows|
    ensures rows[i].Unreadable? ==> ExtractAll(rows)[i].Keys == {"error"} && "appuser" !in ExtractAll(rows)[i]
    ensures rows[i].Fetched? ==>
      ExtractAll(rows)[i].Keys == set j | 0 <= j < |rows[i].columns| :: Lower(rows[i].columns[j].name)
  {
    if rows[i].Fetched? {
      RowMapKeys(rows[i].columns);
    }
  }

  // ---------------------------------------------------------------------------
  // remove_domain

  /** `remove_domain`: when the first backslash is not at the start, the piece
      between it and the next backslash (`user.split('\\')[1]`). */
  function RemoveDomain(user: string): string
  {
    if IndexOf(user, '\\') > 0 then Split(user, '\\')[1] else user
  }

  /** With a backslash past the start, the result is the text after the first
      backslash up to the next one, or to the end when there is none. */
  lemma RemoveDomainStripsDomain(user: string)
    requires IndexOf(user, '\\') > 0
    ensures var rest := user[IndexOf(user, '\\') + 1..];
            var j := IndexOf(rest, '\\');
            RemoveDomain(user) == if j < 0 then rest else rest[..j]
  {
    SplitUnfold(user, '\\');
    var rest := user[IndexOf(user, '\\') + 1..];
    if IndexOf(rest, '\\') >= 0 {
      SplitUnfold(rest, '\\');
    }
  }

  /** With exactly one backslash, past the start, the result is everything after it. */
  lemma RemoveDomainSingleBackslash(user: string)
    requires IndexOf(user, '\\') > 0 && Occurrences(user, '\\') == 1
    ensures RemoveDomain(user) == user[IndexOf(user, '\\') + 1..]
  {
    var k := IndexOf(user, '\\');
    OccurrencesAround(user, k, '\\');
    assert '\\' !in user[k + 1..];
    RemoveDomainStripsDomain(user);
  }

  /** Without a backslash, or with one at the very start, the name is kept. */
  lemma RemoveDomainKeeps(user: string)
    requires '\\' !in user || user[0] == '\\'
    ensures RemoveDomain(user) == user
  {
  }

  // ---------------------------------------------------------------------------
  // The per-row rewrite and the counters (lines 77-88)

  /** The dictionary after lines 84-87 have assigned the three rewritten values;
      `sort_key` is kept apart, in `UserRecord.sortKey`. */
  function Updated(u: Dict, username: string, loginTime: string, lastActivty: string): Dict
  {
    u["username" := username]["login_time" := loginTime]["last_activty" := lastActivty] - {"sort_key"}
  }

  /** Lines 84-88 on one dictionary: rewrite `username`, `login_time` and
      `last_activty` in turn, then parse `sort_key` from the new `last_activty`.
      Each lookup reads a key the earlier assignments leave alone, so it reads `u`. */
  function Rewrite(u: Dict): Result<UserRecord, Failure>
  {
    if "username" !in u then Failure(KeyMissing("username"))
    else if "login_time" !in u then Failure(KeyMissing("login_time"))
    else if "last_activty" !in u then Failure(KeyMissing("last_activty"))
    else
      var lastActivty := Reformat(Some(u["last_activty"]));
      match ParseDisplay(lastActivty)
      case None => Failure(TimeDataMismatch(lastActivty, DisplayFormat))
      case Some(key) =>
        Success(UserRecord(Updated(u, RemoveDomain(u["username"]), Reformat(Some(u["login_time"])), lastActivty), key))
  }

  /** The dictionaries the second loop gets through: every key it reads is there
      and the reformatted `last_activty` is not empty. */
  predicate Processable(u: Dict)
  {
    && "appuser" in u && "biuser" in u && "username" in u
    && "login_time" in u && "last_activty" in u
    && Reformat(Some(u["last_activty"])) != ""
  }

  /** Only the three assigned entries change, and `sort_key` leaves the dictionary. */
  lemma UpdatedFields(u: Dict, username: string, loginTime: string, lastActivty: string)
    ensures var r := Updated(u, username, loginTime, lastActivty);
      && r.Keys == u.Keys + {"username", "login_time", "last_activty"} - {"sort_key"}
      && r["username"] == username && r["login_time"] == loginTime && r["last_activty"] == lastActivty
      && (forall k :: k in r && k != "username" && k != "login_time" && k != "last_activty"
                      ==> r[k] == u[k])
  {
  }

  /** The rewrite of a dictionary with all its keys: it succeeds exactly when the
      reformatted last activity is not empty; then the entries are the three
      rewritten values over the old ones, and `sort_key` is the last activity
      to the minute. */
  lemma RewriteFields(u: Dict)
    requires "username" in u && "login_time" in u && "last_activty" in u
    ensures Rewrite(u).Success? <==> Reformat(Some(u["last_activty"])) != ""
    ensures Rewrite(u).Success? ==>
      && Rewrite(u).value.fields
         == Updated(u, RemoveDomain(u["username"]), Reformat(Some(u["login_time"])),
                    Reformat(Some(u["last_activty"])))
      && Rewrite(u).value.sortKey == ToMinute(ParseWithFraction(Normalize(u["last_activty"])).value)
  {
    ReformatReparses(u["last_activty"]);
  }

  /** The loop's part of processability: the flags are there and the rewrite goes through. */
  lemma ProcessableRewrites(u: Dict)
    ensures Processable(u) <==> "appuser" in u && "biuser" in u && Rewrite(u).Success?
  {
    if "username" in u && "login_time" in u && "last_activty" in u {
      RewriteFields(u);
    }
  }

  /** What lines 84-88 do to one dictionary; the second loop is stated for any of
      these and used with `Rewrite`. */
  type Rewriter = Dict -> Result<UserRecord, Failure>

  /** The state of the second loop: both counters and the records done so far,
      or the exception that ended it. */
  datatype Tally = Tally(appusers: nat, biusers: nat, outcome: Result<seq<UserRecord>, Failure>)

  /** One point for a dictionary whose flag `key` is `"X"`. */
  function Flag(u: Dict, key: string): nat
  {
    if key in u && u[key] == "X" then 1 else 0
  }

  /** One iteration of the second loop, lines 80-88: count `appuser`, count
      `biuser`, then rewrite. */
  function Step(rewrite: Rewriter, t: Tally, u: Dict): Tally
    requires t.outcome.Success?
  {
    if "appuser" !in u then t.(outcome := Failure(KeyMissing("appuser")))
    else
      var app := t.appusers + Flag(u, "appuser");
      if "biuser" !in u then Tally(app, t.biusers, Failure(KeyMissing("biuser")))
      else
        var bi := t.biusers + Flag(u, "biuser");
        match rewrite(u)
        case Failure(e) => Tally(app, bi, Failure(e))
        case Success(r) => Tally(app, bi, Success(t.outcome.value + [r]))
  }

  /** The second loop over `users`, from counters reset to zero; the first
      exception stops it. */
  function Run(rewrite: Rewriter, users: seq<Dict>): Tally
  {
    if |users| == 0 then Tally(0, 0, Success([]))
    else
      var t := Run(rewrite, users[..|users| - 1]);
      if t.outcome.Failure? then t else Step(rewrite, t, users[|users| - 1])
  }

  /** A dictionary the loop gets through with `rewrite`. */
  predicate Goes(rewrite: Rewriter, u: Dict)
  {
    "appuser" in u && "biuser" in u && rewrite(u).Success?
  }

  /** The exception a dictionary the loop cannot get through raises. */
  function FailureOf(rewrite: Rewriter, u: Dict): Failure
    requires !Goes(rewrite, u)
  {
    if "appuser" !in u then KeyMissing("appuser")
    else if "biuser" !in u then KeyMissing("biuser")
    else rewrite(u).error
  }

  /** Number of dictionaries whose `key` entry is `"X"`. */
  function CountFlag(users: seq<Dict>, key: string): nat
  {
    if |users| == 0 then 0 else Flag(users[0], key) + CountFlag(users[1..], key)
  }

  lemma {:induction false} CountFlagSnoc(users: seq<Dict>, u: Dict, key: string)
    ensures CountFlag(users + [u], key) == CountFlag(users, key) + Flag(u, key)
  {
    if |users| > 0 {
      assert (users + [u])[1..] == users[1..] + [u];
      CountFlagSnoc(users[1..], u, key);
    }
  }

  /** A failed iteration ends the loop: the state stays what it was then. */
  lemma {:induction false} RunStopsAtFailure(rewrite: Rewriter, users: seq<Dict>, k: nat)
    requires k <= |users| && Run(rewrite, users[..k]).outcome.Failure?
    ensures Run(rewrite, users) == Run(rewrite, users[..k])
    decreases |users| - k
  {
    if k < |users| {
      assert users[..k + 1][..k] == users[..k];
      RunStopsAtFailure(rewrite, users, k + 1);
    } else {
      assert users[..k] == users;
    }
  }

  /** One more dictionary after a good prefix is one more step. */
  lemma RunExtend(rewrite: Rewriter, users: seq<Dict>, k: nat)
    requires k < |users| && Run(rewrite, users[..k]).outcome.Success?
    ensures Run(rewrite, users[..k + 1]) == Step(rewrite, Run(rewrite, users[..k]), users[k])
  {
    assert users[..k + 1][..k] == users[..k];
  }

  /** The loop gets through all the dictionaries exactly when it gets through each. */
  lemma {:induction false} RunSucceeds(rewrite: Rewriter, users: seq<Dict>)
    ensures Run(rewrite, users).outcome.Success?
            <==> forall i :: 0 <= i < |users| ==> Goes(rewrite, users[i])
  {
    if |users| > 0 {
      var init := users[..|users| - 1];
      RunSucceeds(rewrite, init);
      assert forall i :: 0 <= i < |init| ==> init[i] == users[i];
    }
  }

  /** After a complete run there is one record per dictionary, in order, and the
      counters are the numbers of `"X"` flags, each counted on its own. */
  lemma {:induction false} RunRecords(rewrite: Rewriter, users: seq<Dict>)
    requires Run(rewrite, users).outcome.Success?
    ensures var t := Run(rewrite, users);
      && |t.outcome.value| == |users|
      && (forall i :: 0 <= i < |users| ==> rewrite(users[i]) == Success(t.outcome.value[i]))
      && t.appusers == CountFlag(users, "appuser")
      && t.biusers == CountFlag(users, "biuser")
  {
    if |users| > 0 {
      var init, u := users[..|users| - 1], users[|users| - 1];
      assert Run(rewrite, init).outcome.Success?;
      RunRecords(rewrite, init);
      assert init + [u] == users;
      CountFlagSnoc(init, u, "appuser");
      CountFlagSnoc(init, u, "biuser");
      assert forall i :: 0 <= i < |init| ==> init[i] == users[i];
    }
  }

  /** The first dictionary the loop cannot get through decides the exception. */
  lemma {:induction false} RunFirstFailure(rewrite: Rewriter, users: seq<Dict>, i: nat)
    requires i < |users| && !Goes(rewrite, users[i])
    requires forall j :: 0 <= j < i ==> Goes(rewrite, users[j])
    ensures Run(rewrite, users).outcome == Failure(FailureOf(rewrite, users[i]))
  {
    var pre := users[..i];
    RunSucceeds(rewrite, pre);
    assert forall j :: 0 <= j < i ==> pre[j] == users[j];
    assert users[..i + 1] == pre + [users[i]];
    assert users[..i + 1][..i] == pre;
    RunStopsAtFailure(rewrite, users, i + 1);
  }

  // ---------------------------------------------------------------------------
  // sort_users: `sorted(users, key=lambda k: k['sort_key'])`

  /** Insert `x` before the first record whose key is not before `x`'s. */
  function Insert(x: UserRecord, s: seq<UserRecord>): seq<UserRecord>
  {
    if |s| == 0 then [x]
    else if NotAfter(x.sortKey, s[0].sortKey) then [x] + s
    else [s[0]] + Insert(x, s[1..])
  }

  /** Python's stable sort, as an insertion sort from the back. */
  function SortUsers(users: seq<UserRecord>): seq<UserRecord>
  {
    if |users| == 0 then [] else Insert(users[0], SortUsers(users[1..]))
  }

  predicate SortedByKey(s: seq<UserRecord>)
  {
    forall i, j :: 0 <= i < j < |s| ==> NotAfter(s[i].sortKey, s[j].sortKey)
  }

  /** The records whose key is `k`, in their order. */
  function WithKey(s: seq<UserRecord>, k: DateTime): seq<UserRecord>
  {
    if |s| == 0 then [] else (if s[0].sortKey == k then [s[0]] else []) + WithKey(s[1..], k)
  }

  lemma {:induction false} InsertPermutes(x: UserRecord, s: seq<UserRecord>)
    ensures multiset(Insert(x, s)) == multiset(s) + multiset{x}
  {
    if |s| > 0 && !NotAfter(x.sortKey, s[0].sortKey) {
      InsertPermutes(x, s[1..]);
      assert s == [s[0]] + s[1..];
    }
  }

  /** A key no later than `x`'s and than every key of `s` is no later than any key
      after the insertion. */
  lemma InsertLowerBound(x: UserRecord, s: seq<UserRecord>, k: DateTime)
    requires NotAfter(k, x.sortKey)
    requires forall j :: 0 <= j < |s| ==> NotAfter(k, s[j].sortKey)
    ensures forall j :: 0 <= j < |Insert(x, s)| ==> NotAfter(k, Insert(x, s)[j].sortKey)
  {
    var t := Insert(x, s);
    InsertPermutes(x, s);
    forall j | 0 <= j < |t| ensures NotAfter(k, t[j].sortKey) {
      assert t[j] in multiset(t);
      if t[j] != x {
        assert t[j] in multiset(s);
        var m :| 0 <= m < |s| && s[m] == t[j];
      }
    }
  }

  /** A record no later than every key of a sorted sequence can go in front of it. */
  lemma ConsSorted(h: UserRecord, t: seq<UserRecord>)
    requires SortedByKey(t)
    requires forall j :: 0 <= j < |t| ==> NotAfter(h.sortKey, t[j].sortKey)
    ensures SortedByKey([h] + t)
  {
    var r := [h] + t;
    forall a, b | 0 <= a < b < |r| ensures NotAfter(r[a].sortKey, r[b].sortKey) {
      if a > 0 {
        assert r[a] == t[a - 1] && r[b] == t[b - 1];
      }
    }
  }

  lemma {:induction false} InsertSorted(x: UserRecord, s: seq<UserRecord>)
    requires SortedByKey(s)
    ensures SortedByKey(Insert(x, s))
  {
    if |s| > 0 {
      if NotAfter(x.sortKey, s[0].sortKey) {
        forall j | 0 < j < |s| ensures NotAfter(x.sortKey, s[j].sortKey) {
          NotAfterTransitive(x.sortKey, s[0].sortKey, s[j].sortKey);
        }
        ConsSorted(x, s);
      } else {
        InsertSorted(x, s[1..]);
        NotAfterTotal(x.sortKey, s[0].sortKey);
        InsertLowerBound(x, s[1..], s[0].sortKey);
        ConsSorted(s[0], Insert(x, s[1..]));
      }
    }
  }

  /** Inserting `x` puts it ahead of the records with its own key. */
  lemma {:induction false} InsertWithKey(x: UserRecord, s: seq<UserRecord>, k: DateTime)
    ensures WithKey(Insert(x, s), k) == (if x.sortKey == k then [x] else []) + WithKey(s, k)
  {
    if |s| > 0 {
      if NotAfter(x.sortKey, s[0].sortKey) {
        assert ([x] + s)[1..] == s;
      } else {
        InsertWithKey(x, s[1..], k);
        assert ([s[0]] + Insert(x, s[1..]))[1..] == Insert(x, s[1..]);
        assert s[0].sortKey != x.sortKey;
      }
    } else {
      assert [x][1..] == [];
    }
  }

  /** The sorted list is ordered by key, holds the same records, and keeps the
      original order among records with equal keys. */
  lemma {:induction false} SortUsersCorrect(users: seq<UserRecord>)
    ensures SortedByKey(SortUsers(users))
    ensures multiset(SortUsers(users)) == multiset(users)
    ensures forall k :: WithKey(SortUsers(users), k) == WithKey(users, k)
  {
    if |users| > 0 {
      var rest := SortUsers(users[1..]);
      SortUsersCorrect(users[1..]);
      InsertSorted(users[0], rest);
      InsertPermutes(users[0], rest);
      assert users == [users[0]] + users[1..];
      forall k ensures WithKey(SortUsers(users), k) == WithKey(users, k) {
        InsertWithKey(users[0], rest, k);
      }
    }
  }

  // ---------------------------------------------------------------------------
  // The whole report

  /** The list and the two counters of one `get_sage_erp_users` call. */
  datatype Report = Report(users: seq<UserRecord>, appusers: nat, biusers: nat)

  /** `get_sage_erp_users` as a function of what the query returned. */
  function GetReport(fetched: Result<seq<RawRow>, Failure>): Result<Report, Failure>
  {
    match fetched
    case Failure(e) => Failure(e)
    case Success(rows) =>
      var t := Run(Rewrite, ExtractAll(rows));
      match t.outcome
      case Failure(e) => Failure(e)
      case Success(records) => Success(Report(SortUsers(records), t.appusers, t.biusers))
  }

  /** A report comes out exactly when every row's dictionary is processable. */
  lemma ReportSucceeds(rows: seq<RawRow>)
    ensures GetReport(Success(rows)).Success?
            <==> forall i :: 0 <= i < |rows| ==> Processable(Extracted(rows[i]))
  {
    var users := ExtractAll(rows);
    RunSucceeds(Rewrite, users);
    forall i | 0 <= i < |rows|
      ensures Processable(Extracted(rows[i])) <==> Goes(Rewrite, users[i])
    {
      ProcessableRewrites(users[i]);
    }
  }

  /** One unreadable row, or one whose last activity does not reformat, fails the
      whole report: there is no placeholder record and no fallback key. */
  lemma ReportFailsOnBadRow(rows: seq<RawRow>, i: nat)
    requires i < |rows|
    requires || rows[i].Unreadable?
             || ("last_activty" in Extracted(rows[i]) && Reformat(Some(Extracted(rows[i])["last_activty"])) == "")
    ensures GetReport(Success(rows)).Failure?
  {
    ReportSucceeds(rows);
  }

  /** The exception reported is the one of the first row the loop cannot get
      through; for an unreadable row it is the `KeyError` on `appuser`. */
  lemma ReportFirstFailure(rows: seq<RawRow>, i: nat)
    requires i < |rows| && !Goes(Rewrite, Extracted(rows[i]))
    requires forall j :: 0 <= j < i ==> Goes(Rewrite, Extracted(rows[j]))
    ensures GetReport(Success(rows)) == Failure(FailureOf(Rewrite, Extracted(rows[i])))
    ensures rows[i].Unreadable? ==> GetReport(Success(rows)) == Failure(KeyMissing("appuser"))
  {
    RunFirstFailure(Rewrite, ExtractAll(rows), i);
  }

  /** A finished report: one record per row, ordered by `sort_key`, stable on
      ties, the counters the numbers of `X` flags among the rows. */
  lemma ReportContents(rows: seq<RawRow>)
    requires GetReport(Success(rows)).Success?
    ensures var users := ExtractAll(rows);
            var t := Run(Rewrite, users);
      && t.outcome.Success?
      && GetReport(Success(rows)).value == Report(SortUsers(t.outcome.value), t.appusers, t.biusers)
      && |t.outcome.value| == |rows|
      && (forall i :: 0 <= i < |rows| ==> Rewrite(Extracted(rows[i])) == Success(t.outcome.value[i]))
      && t.appusers == CountFlag(users, "appuser")
      && t.biusers == CountFlag(users, "biuser")
  {
    var users := ExtractAll(rows);
    RunRecords(Rewrite, users);
    forall i | 0 <= i < |rows|
      ensures Rewrite(Extracted(rows[i])) == Success(Run(Rewrite, users).outcome.value[i])
    {
      assert users[i] == Extracted(rows[i]);
    }
  }

  /** The report's list is the records sorted by `sort_key`, stable on ties. */
  lemma ReportOrder(rows: seq<RawRow>)
    requires GetReport(Success(rows)).Success?
    ensures var records := Run(Rewrite, ExtractAll(rows)).outcome.value;
            var sorted := GetReport(Success(rows)).value.users;
      && |sorted| == |rows|
      && SortedByKey(sorted)
      && multiset(sorted) == multiset(records)
      && (forall k :: WithKey(sorted, k) == WithKey(records, k))
  {
    ReportContents(rows);
    var records := Run(Rewrite, ExtractAll(rows)).outcome.value;
    SortUsersCorrect(records);
    assert |multiset(SortUsers(records))| == |multiset(records)|;
  }

  // ---------------------------------------------------------------------------
  // The class

  /** `SageERP`: the two counters survive the call; the connection is not modelled
      and the query's result is passed in. */
  class SageERP {
    var appusers: nat
    var biusers: nat

    constructor ()
      ensures appusers == 0 && biusers == 0
    {
      appusers := 0;
      biusers := 0;
    }

    /** `reformat_datetime`: try the two formats in turn; the first that parses wins. */
    static method ReformatDatetime(dt: Option<string>) returns (result: string)
      ensures result == Reformat(dt)
    {
      if dt.None? {
        return "";
      }
      var datetimeTmp := RemoveChar(ReplaceChar(dt.value, 'T', ' '), 'Z');
      if '.' !in datetimeTmp {
        datetimeTmp := datetimeTmp + ".000000";
      }
      var formats := [WithFraction, WithoutFraction];
      var dtmp: Option<DateTime> := None;
      var i := 0;
      while i < |formats|
        invariant 0 <= i <= |formats|
        invariant dtmp == None
        invariant i > 0 ==> ParseWithFraction(datetimeTmp).None?
      {
        var parsed := Strptime(datetimeTmp, formats[i]);
        if parsed.Some? {
          dtmp := parsed;
          break;
        }
        i := i + 1;
      }
      SecondsFormatRejectsDot(datetimeTmp);
      if dtmp.None? {
        result := "";
      } else {
        result := Display(dtmp.value);
      }
    }

    /** Lines 84-88, the rewrite of one dictionary in place. */
    static method RewriteUser(u: Dict) returns (r: Result<UserRecord, Failure>)
      ensures r == Rewrite(u)
    {
      var user := u;
      if "username" !in user {
        return Failure(KeyMissing("username"));
      }
      user := user["username" := RemoveDomain(user["username"])];
      if "login_time" !in user {
        return Failure(KeyMissing("login_time"));
      }
      var loginTime := ReformatDatetime(Some(user["login_time"]));
      user := user["login_time" := loginTime];
      if "last_activty" !in user {
        return Failure(KeyMissing("last_activty"));
      }
      var lastActivty := ReformatDatetime(Some(user["last_activty"]));
      user := user["last_activty" := lastActivty];
      var sortKey := ParseDisplay(user["last_activty"]);
      if sortKey.None? {
        return Failure(TimeDataMismatch(user["last_activty"], DisplayFormat));
      }
      assert user - {"sort_key"} == Updated(u, RemoveDomain(u["username"]), loginTime, lastActivty);
      r := Success(UserRecord(user - {"sort_key"}, sortKey.value));
    }

    /** The first loop of `get_sage_erp_users`: one dictionary per row, the error
        placeholder for a row that cannot be read. */
    static method ExtractRows(rows: seq<RawRow>) returns (extracted: seq<Dict>)
      ensures extracted == ExtractAll(rows)
    {
      extracted := [];
      var i := 0;
      while i < |rows|
        invariant 0 <= i <= |rows|
        invariant |extracted| == i
        invariant forall j :: 0 <= j < i ==> extracted[j] == Extracted(rows[j])
      {
        match rows[i] {
          case Fetched(columns) =>
            var r := DB.ExtractRow(columns);
            extracted := extracted + [r];
          case Unreadable(reason) =>
            extracted := extracted + [map["error" := "Error extracting row: " + reason]];
        }
        i := i + 1;
      }
    }

    /** One iteration of the second loop, lines 80-88: count the flags, then
        rewrite the dictionary; `done` are the records of the iterations before. */
    method CountAndRewrite(u: Dict, ghost done: seq<UserRecord>)
      returns (r: Result<UserRecord, Failure>)
      modifies this
      ensures Tally(appusers, biusers, match r
                                       case Success(x) => Success(done + [x])
                                       case Failure(e) => Failure(e))
              == Step(Rewrite, Tally(old(appusers), old(biusers), Success(done)), u)
    {
      if "appuser" !in u {
        return Failure(KeyMissing("appuser"));
      }
      if u["appuser"] == "X" {
        appusers := appusers + 1;
      }
      if "biuser" !in u {
        return Failure(KeyMissing("biuser"));
      }
      if u["biuser"] == "X" {
        biusers := biusers + 1;
      }
      r := RewriteUser(u);
    }

    /** `get_sage_erp_users` after the query: extract every row, reset and count,
        rewrite every dictionary, sort. */
    method GetSageErpUsers(fetched: Result<seq<RawRow>, Failure>)
      returns (users: Result<seq<UserRecord>, Failure>)
      modifies this
      ensures fetched.Failure? ==>
        users == Failure(fetched.error) && appusers == old(appusers) && biusers == old(biusers)
      ensures fetched.Success? ==>
        var t := Run(Rewrite, ExtractAll(fetched.value));
        && appusers == t.appusers && biusers == t.biusers
        && users == match t.outcome
                    case Success(records) => Success(SortUsers(records))
                    case Failure(e) => Failure(e)
    {
      if fetched.Failure? {
        return Failure(fetched.error);
      }
      var extracted := ExtractRows(fetched.value);
      appusers := 0;
      biusers := 0;
      var done: seq<UserRecord> := [];
      var k := 0;
      while k < |extracted|
        invariant 0 <= k <= |extracted|
        invariant Run(Rewrite, extracted[..k]) == Tally(appusers, biusers, Success(done))
      {
        RunExtend(Rewrite, extracted, k);
        var r := CountAndRewrite(extracted[k], done);
        if r.Failure? {
          RunStopsAtFailure(Rewrite, extracted, k + 1);
          return Failure(r.error);
        }
        done := done + [r.value];
        k := k + 1;
      }
      assert extracted[..k] == extracted;
      users := Success(SortUsers(done));
    }
  }
}
