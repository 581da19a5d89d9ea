/** `main.py`: the IP allow-list middleware and the `/SageErpUsers` endpoint.
    The environment's `ALLOWED_IPS` value and what the database query returned
    are passed in. */
module Api {
  import opened Wrappers
  import opened Text
  import opened SageErp

  /** `is_allowed`: an empty `ALLOWED_IPS` admits every host; otherwise the host
      must equal one of the comma-separated entries exactly as written. */
  function IsAllowed(hostIp: string, allowedIps: string): bool
  {
    allowedIps == "" || hostIp in Split(allowedIps, ',')
  }

  /** A host is admitted exactly when the list is empty, or when the host holds no
      comma and stands in the list between commas or the ends of the list. */
  lemma IsAllowedExactly(hostIp: string, allowedIps: string)
    ensures IsAllowed(hostIp, allowedIps)
            <==> allowedIps == "" || (',' !in hostIp && DelimitedIn(hostIp, allowedIps, ','))
  {
    SplitMember(hostIp, allowedIps, ',');
  }

  /** For a list written as comma-free entries joined by commas, the hosts
      admitted are the entries themselves, compared whole and as written (so
      `" 10.0.0.2"` does not admit `10.0.0.2`). */
  lemma ListedEntriesAdmitted(entries: seq<string>, hostIp: string)
    requires |entries| >= 1
    requires forall i :: 0 <= i < |entries| ==> ',' !in entries[i]
    ensures IsAllowed(hostIp, Join(entries, ',')) <==> Join(entries, ',') == "" || hostIp in entries
  {
    SplitJoin(entries, ',');
  }

  /** The JSON content of a response. */
  datatype Body =
    | Message(message: string)
    | Users(users: seq<UserRecord>, message: string, appusers: nat, biusers: nat)

  datatype Response = Response(status: int, body: Body)

  const HttpOk := 200
  const HttpBadRequest := 400
  const HttpInternalServerError := 500

  /** The refusal `before_request` sends to a host not on the list. */
  function Refusal(ipAddr: string): Response
  {
    Response(HttpBadRequest, Message("IP " + ipAddr + " is not allowed to access this resource"))
  }

  /** `before_request`: refuse the host, or hand over to the endpoint. */
  function BeforeRequest(ipAddr: string, allowedIps: string, callNext: Response): Response
  {
    if !IsAllowed(ipAddr, allowedIps) then Refusal(ipAddr) else callNext
  }

  /** The `/SageErpUsers` endpoint as a function of what the query returned. */
  function UsersResponse(fetched: Result<seq<RawRow>, Failure>): Response
  {
    match GetReport(fetched)
    case Success(report) =>
      Response(HttpOk, Users(report.users, "Success", report.appusers, report.biusers))
    case Failure(e) =>
      Response(HttpInternalServerError, Message("Unexpected Error: " + Describe(e)))
  }

  /** A request to `/SageErpUsers` through the middleware. */
  function HandleRequest(ipAddr: string, allowedIps: string,
                         fetched: Result<seq<RawRow>, Failure>): Response
  {
    BeforeRequest(ipAddr, allowedIps, UsersResponse(fetched))
  }

  /** A refused host gets the 400 refusal whatever the database holds: the
      endpoint's outcome does not reach it. */
  lemma RefusedRequestIgnoresDatabase(ipAddr: string, allowedIps: string,
                                      fetched1: Result<seq<RawRow>, Failure>,
                                      fetched2: Result<seq<RawRow>, Failure>)
    requires !IsAllowed(ipAddr, allowedIps)
    ensures HandleRequest(ipAddr, allowedIps, fetched1) == HandleRequest(ipAddr, allowedIps, fetched2)
    ensures HandleRequest(ipAddr, allowedIps, fetched1).status == HttpBadRequest
  {
  }

  /** An admitted host gets exactly the endpoint's response. */
  lemma AdmittedRequestGetsEndpoint(ipAddr: string, allowedIps: string,
                                    fetched: Result<seq<RawRow>, Failure>)
    requires IsAllowed(ipAddr, allowedIps)
    ensures HandleRequest(ipAddr, allowedIps, fetched) == UsersResponse(fetched)
  {
  }

  /** The endpoint answers 200 with the sorted list and both counters when the
      report comes out, and 500 with the exception's text otherwise. */
  lemma UsersResponseOutcome(rows: seq<RawRow>)
    ensures var r := UsersResponse(Success(rows));
      && (r.status == HttpOk <==> forall i :: 0 <= i < |rows| ==> Processable(Extracted(rows[i])))
      && (r.status == HttpOk || r.status == HttpInternalServerError)
      && (r.status == HttpOk ==>
            && r.body.Users? && r.body.message == "Success"
            && |r.body.users| == |rows| && SortedByKey(r.body.users)
            && r.body.appusers == CountFlag(ExtractAll(rows), "appuser")
            && r.body.biusers == CountFlag(ExtractAll(rows), "biuser"))
      && (r.status == HttpInternalServerError ==>
            r.body == Message("Unexpected Error: " + Describe(GetReport(Success(rows)).error)))
  {
    ReportSucceeds(rows);
    if GetReport(Success(rows)).Success? {
      ReportContents(rows);
      ReportOrder(rows);
    }
  }

  /** An unreadable row after readable, processable ones ends the request with
      `Unexpected Error: 'appuser'`. */
  lemma UnreadableRowResponse(rows: seq<RawRow>, i: nat)
    requires i < |rows| && rows[i].Unreadable?
    requires forall j :: 0 <= j < i ==> Goes(Rewrite, Extracted(rows[j]))
    ensures UsersResponse(Success(rows))
            == Response(HttpInternalServerError, Message("Unexpected Error: 'appuser'"))
  {
    assert "appuser" !in Extracted(rows[i]);
    ReportFirstFailure(rows, i);
    assert GetReport(Success(rows)) == Failure(KeyMissing("appuser"));
    assert "Unexpected Error: " + Describe(KeyMissing("appuser")) == "Unexpected Error: 'appuser'";
  }

  /** `get_sage_erp_users` in `main.py`: a fresh `SageERP`, its report and its
      counters, or the 500 answer. */
  method GetSageErpUsers(fetched: Result<seq<RawRow>, Failure>) returns (resp: Response)
    ensures resp == UsersResponse(fetched)
  {
    var sdb := new SageERP();
    var users := sdb.GetSageErpUsers(fetched);
    if users.Failure? {
      return Response(HttpInternalServerError, Message("Unexpected Error: " + Describe(users.error)));
    }
    var appusers := sdb.appusers;
    var biusers := sdb.biusers;
    resp := Response(HttpOk, Users(users.value, "Success", appusers, biusers));
  }

  /** The middleware around the endpoint: the endpoint runs only for an admitted host. */
  method Handle(ipAddr: string, allowedIps: string, fetched: Result<seq<RawRow>, Failure>)
    returns (resp: Response)
    ensures resp == HandleRequest(ipAddr, allowedIps, fetched)
  {
    if !IsAllowed(ipAddr, allowedIps) {
      return Refusal(ipAddr);
    }
    resp := GetSageErpUsers(fetched);
  }
}
