/** CertificatesController.java: how a search form becomes a database query,
    and how a confirmed submission is stored. Date parsing (SimpleDateFormat
    "yyyy-MM-dd") is a parameter: a partial function from text to milliseconds. */
module CertificatesController {
  import opened Wrappers
  import opened JavaLang
  import opened CertificateBean
  import opened SubmissionBean
  import opened CertificateUtils
  import opened CertificateDB
  import SC = CertificateDBSC
  import opened WebCertificateDB

  /** QueryParameters.java: the five text fields of the search form. */
  datatype QueryParameters = QueryParameters(
    firstName: string,
    lastName: string,
    email: string,
    endDateRangeLow: string,
    endDateRangeHigh: string)

  /** The three ways queryFromQueryParameters can answer. */
  datatype Route =
    | WholeDatabase   // every field empty: getAllCertificates, unfiltered
    | DateOnly        // only the two dates given: getAllCertificates, filtered here
    | MatchAll        // anything else: queryAllFromWeb

  function ChooseRoute(p: QueryParameters): Route {
    if p.email == "" && p.firstName == "" && p.lastName == ""
       && p.endDateRangeLow == "" && p.endDateRangeHigh == "" then WholeDatabase
    else if p.firstName == "" && p.lastName == "" && p.email == ""
            && p.endDateRangeLow != "" && p.endDateRangeHigh != "" then DateOnly
    else MatchAll
  }

  /** The routes partition the forms: a name or an email always goes to
      queryAll, and so does a form with exactly one of the two dates. */
  lemma RouteCases(p: QueryParameters)
    ensures ChooseRoute(p) == WholeDatabase
            <==> p.firstName == p.lastName == p.email == p.endDateRangeLow == p.endDateRangeHigh == ""
    ensures ChooseRoute(p) == DateOnly
            <==> p.firstName == p.lastName == p.email == "" && p.endDateRangeLow != "" && p.endDateRangeHigh != ""
    ensures p.firstName != "" || p.lastName != "" || p.email != "" ==> ChooseRoute(p) == MatchAll
    ensures (p.endDateRangeLow == "") != (p.endDateRangeHigh == "") ==> ChooseRoute(p) == MatchAll
  {
  }

  /** A date field as the query sees it: null when empty or unparseable. */
  function ParsedBound(parseDate: string -> Option<int>, text: string): Option<int> {
    if text == "" then None else parseDate(text)
  }

  /** Whether the date-only loop dereferences a null bound: the low bound is
      read for every certificate, the high one only for a certificate after the
      low bound. */
  predicate DateFilterThrows(d: seq<Certificate>, low: Option<int>, high: Option<int>)
    reads set c | c in d
  {
    d != [] && (low.None? || (high.None? && exists c :: c in d && low.value < c.endDate))
  }

  /** The if-else chain in the date-only loop: whether the certificate is
      removed, or the NullPointerException of a null bound it reads. */
  method OutsideDates(temp: Certificate, low: Option<int>, high: Option<int>)
    returns (r: Result<bool, JavaException>)
    ensures r.Failure? <==> low.None? || (low.value < temp.endDate && high.None?)
    ensures r.Failure? ==> r.error == NullPointer
    ensures r.Success? ==> (r.value <==> !Matches(temp, Criteria("", "", "", low, high)))
  {
    if low.None? {
      return Failure(NullPointer);                    // rangeLow.before(...)
    }
    if !(low.value < temp.endDate) {
      r := Success(true);
    } else if high.None? {
      r := Failure(NullPointer);                      // rangeHigh.before(...)
    } else if high.value < temp.endDate {
      r := Success(true);
    } else {
      r := Success(false);
    }
  }

  /** A null bound read at position j makes the whole loop throw. */
  lemma ThrowsAt(d: seq<Certificate>, j: nat, low: Option<int>, high: Option<int>)
    requires j < |d|
    requires low.None? || (low.value < d[j].endDate && high.None?)
    ensures DateFilterThrows(d, low, high)
  {
    assert d[j] in d;
  }

  /** A loop that reached the end without throwing kept nothing when the high
      bound is null, and then no certificate lies after the low bound. */
  lemma NoThrowWhenFinished(d: seq<Certificate>, low: Option<int>, high: Option<int>)
    requires low.Some? || d == []
    requires high.None? ==> |Survivors(d, Criteria("", "", "", low, high))| == 0
    ensures !DateFilterThrows(d, low, high)
  {
    SurvivorsMembership(d, Criteria("", "", "", low, high));
  }

  /** The iterator loop of the date-only branch over the list's contents:
      removes, in place, each certificate whose end date is not after rangeLow
      or is after rangeHigh; a null bound it has to read throws. */
  method FilterDates(d: seq<Certificate>, low: Option<int>, high: Option<int>)
    returns (r: Result<seq<Certificate>, JavaException>)
    ensures r.Failure? <==> DateFilterThrows(d, low, high)
    ensures r.Failure? ==> r.error == NullPointer
    ensures r.Success? ==> r.value == Survivors(d, Criteria("", "", "", low, high))
  {
    ghost var q := Criteria("", "", "", low, high);
    var items := d;
    var i := 0;
    ghost var j := 0;
    FilterEnds(d, q, j, items, i);
    while i < |items|
      invariant FilterState(d, q, j, items, i)
      invariant low.None? ==> j == 0
      invariant high.None? ==> i == 0
      decreases |d| - j
    {
      FilterStep(d, q, j, items, i);
      var temp := items[i];
      var test := OutsideDates(temp, low, high);
      if test.Failure? {
        ThrowsAt(d, j, low, high);
        return Failure(test.error);
      }
      if test.value {
        assert !Matches(d[j], q);
        items := items[..i] + items[i + 1..];         // iter.remove()
      } else {
        assert Matches(d[j], q);
        i := i + 1;
      }
      j := j + 1;
    }
    FilterEnds(d, q, j, items, i);
    NoThrowWhenFinished(d, low, high);
    r := Success(items);
  }

  /** The date filter applied to the list getAllCertificates returned, which it
      updates when no null bound is read. */
  method RemoveOutsideDates(certificates: ArrayList<Certificate>, low: Option<int>, high: Option<int>)
    returns (r: Result<(), JavaException>)
    modifies certificates
    ensures r.Failure? <==> DateFilterThrows(old(certificates.items), low, high)
    ensures r.Failure? ==> r.error == NullPointer
    ensures r.Success? ==> certificates.items == Survivors(old(certificates.items), Criteria("", "", "", low, high))
  {
    var filtered := FilterDates(certificates.items, low, high);
    if filtered.Failure? {
      return Failure(filtered.error);
    }
    certificates.items := filtered.value;
    r := Success(());
  }

  class CertificatesController {
    const webDB: WebCertificateDB

    constructor (webDB: WebCertificateDB)
      ensures this.webDB == webDB
    {
      this.webDB := webDB;
    }

    /** submit_attempt: stores the confirmed submission with the names in upper
        case and the email in lower case, and picks the view from the outcome. */
    method SubmitAttempt(confirmedSubmission: CertificateSubmission, nulls: nat -> nat) returns (view: string)
      requires webDB.Valid()
      requires webDB.Room({ToLowerCase(confirmedSubmission.email), ToUpperCase(confirmedSubmission.firstName),
                           ToUpperCase(confirmedSubmission.lastName)})
      modifies webDB, webDB.sc.contract
      ensures webDB.Valid()
      ensures view == "submit-success" || view == "submit-error"
      ensures view == "submit-success"
              <==> confirmedSubmission.endDate.Some? && confirmedSubmission.pdfBytes.Some?
      ensures webDB.mapStringToInt.Keys
              == old(webDB.mapStringToInt.Keys)
                 + {ToLowerCase(confirmedSubmission.email), ToUpperCase(confirmedSubmission.firstName),
                    ToUpperCase(confirmedSubmission.lastName)}
      ensures confirmedSubmission.endDate.Some? ==>
                |webDB.sc.contract.sent| > |old(webDB.sc.contract.sent)| &&
                var t := webDB.sc.contract.sent[|old(webDB.sc.contract.sent)|];
                && t.AddCertificate?
                && t.record.email == ToLowerCase(confirmedSubmission.email)
                && t.record.firstName == ToUpperCase(confirmedSubmission.firstName)
                && t.record.lastName == ToUpperCase(confirmedSubmission.lastName)
                && t.record.certificateType == confirmedSubmission.GetCertificateTypeInt()
                && t.record.recordID == confirmedSubmission.recordID
      ensures confirmedSubmission.endDate.None? ==> webDB.sc.contract.sent == old(webDB.sc.contract.sent)
    {
      var successful := webDB.AddNewCertificateFromWeb(
        ToUpperCase(confirmedSubmission.firstName),
        ToUpperCase(confirmedSubmission.lastName),
        ToLowerCase(confirmedSubmission.email),
        Some(confirmedSubmission.GetCertificateTypeInt()),
        Some(confirmedSubmission.recordID),
        confirmedSubmission.courseName,
        confirmedSubmission.endDate,
        confirmedSubmission.pdfBytes,
        nulls);
      if successful {
        view := "submit-success";
      } else {
        view := "submit-error";
      }
    }

    /** The date-only branch: the whole table, filtered here on the parsed dates. */
    method DateOnlyQuery(low: Option<int>, high: Option<int>, response: Option<seq<Certificate>>)
      returns (r: Result<Option<ArrayList<Certificate>>, JavaException>)
      modifies webDB.sc.contract, SC.Objects(response)
      ensures webDB.sc.contract.queries == old(webDB.sc.contract.queries) + [QueryCall.GetAllCertificates]
      ensures webDB.sc.contract.sent == old(webDB.sc.contract.sent)
      ensures webDB.sc.contract.requested == old(webDB.sc.contract.requested)
      ensures response.None? ==> r == Failure(NullPointer)
      ensures response.Some? ==>
                var d := FirstOccurrences(response.value, old(FieldsOf(response.value)));
                && SC.PostProcessed(response.value, d)
                && (DateFilterThrows(d, low, high) ==> r == Failure(NullPointer))
                && (!DateFilterThrows(d, low, high) ==>
                      r.Success? && r.value.Some? && fresh(r.value.value)
                      && r.value.value.items == Survivors(d, Criteria("", "", "", low, high)))
    {
      var certificates := webDB.GetAllCertificates(response);
      if certificates.None? {
        return Failure(NullPointer);                  // certificates.iterator()
      }
      var filtered := RemoveOutsideDates(certificates.value, low, high);
      if filtered.Failure? {
        return Failure(filtered.error);
      }
      r := Success(certificates);
    }

    /** queryFromQueryParameters: the search form answered along one of the
        three routes. */
    method QueryFromQueryParameters(p: QueryParameters, parseDate: string -> Option<int>,
                                    countResponse: Option<int>, response: Option<seq<Certificate>>)
      returns (r: Result<Option<ArrayList<Certificate>>, JavaException>)
      modifies webDB.sc.contract, SC.Objects(response)
      ensures webDB.sc.contract.sent == old(webDB.sc.contract.sent)
      ensures webDB.sc.contract.requested == old(webDB.sc.contract.requested)
      ensures ChooseRoute(p) == WholeDatabase ==>
                && webDB.sc.contract.queries
                   == old(webDB.sc.contract.queries) + [QueryCall.GetCertificateCount, QueryCall.GetAllCertificates]
                && (response.None? ==> r == Success(None))
                && (response.Some? ==>
                      r.Success? && r.value.Some? && fresh(r.value.value)
                      && SC.PostProcessed(response.value, r.value.value.items))
      ensures ChooseRoute(p) == DateOnly ==>
                var low := parseDate(p.endDateRangeLow);
                var high := parseDate(p.endDateRangeHigh);
                && webDB.sc.contract.queries == old(webDB.sc.contract.queries) + [QueryCall.GetAllCertificates]
                && (response.None? ==> r == Failure(NullPointer))
                && (response.Some? ==>
                      var d := FirstOccurrences(response.value, old(FieldsOf(response.value)));
                      && SC.PostProcessed(response.value, d)
                      && (DateFilterThrows(d, low, high) ==> r == Failure(NullPointer))
                      && (!DateFilterThrows(d, low, high) ==>
                            r.Success? && r.value.Some? && fresh(r.value.value)
                            && r.value.value.items == Survivors(d, Criteria("", "", "", low, high))))
      ensures ChooseRoute(p) == MatchAll ==>
                var q := Criteria(ToUpperCase(p.firstName), ToUpperCase(p.lastName), ToLowerCase(p.email),
                                  ParsedBound(parseDate, p.endDateRangeLow),
                                  ParsedBound(parseDate, p.endDateRangeHigh));
                && webDB.sc.contract.queries
                   == old(webDB.sc.contract.queries)
                      + [QueryCall.QueryAll(webDB.ResolveKey(q.firstName), webDB.ResolveKey(q.lastName),
                                            webDB.ResolveKey(q.email), BoundSeconds(q.low), BoundSeconds(q.high))]
                && (response.None? ==> r == Success(None))
                && (response.Some? ==>
                      var d := FirstOccurrences(response.value, old(FieldsOf(response.value)));
                      && SC.PostProcessed(response.value, d)
                      && r.Success? && r.value.Some? && fresh(r.value.value)
                      && r.value.value.items == Survivors(d, q))
    {
      var emailIsEmpty := p.email == "";
      var firstNameIsEmpty := p.firstName == "";
      var lastNameIsEmpty := p.lastName == "";
      var lowDateIsEmpty := p.endDateRangeLow == "";
      var highDateIsEmpty := p.endDateRangeHigh == "";

      if emailIsEmpty && firstNameIsEmpty && lastNameIsEmpty && lowDateIsEmpty && highDateIsEmpty {
        var _ := webDB.GetCertificateCount(countResponse);      // debug output only
        var all := webDB.GetAllCertificates(response);
        return Success(all);
      }

      var rangeLow: Option<int> := None;
      var rangeHigh: Option<int> := None;
      if !lowDateIsEmpty {
        rangeLow := parseDate(p.endDateRangeLow);
      }
      if !highDateIsEmpty {
        rangeHigh := parseDate(p.endDateRangeHigh);
      }

      if firstNameIsEmpty && lastNameIsEmpty && emailIsEmpty && !lowDateIsEmpty && !highDateIsEmpty {
        r := DateOnlyQuery(rangeLow, rangeHigh, response);
        return;
      }

      var result := webDB.QueryAllFromWeb(ToUpperCase(p.firstName), ToUpperCase(p.lastName),
                                          ToLowerCase(p.email), rangeLow, rangeHigh, response);
      r := Success(result);
    }
  }
}
