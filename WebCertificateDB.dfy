/** WebCertificateDB.java: the web application's face of the certificate
    database. It mints numeric keys for the strings the contract indexes by
    (email, first name, last name), turns dates into Unix seconds, forwards to
    the contract client and, for queryAll, filters the answer again on the
    strings and dates themselves. Exceptions are caught here and become false,
    null or -1. */
module WebCertificateDB {
  import opened Wrappers
  import opened JavaLang
  import opened CertificateBean
  import opened CertificateUtils
  import opened CertificateDB
  import SC = CertificateDBSC

  const MAX_RESEARCHER_ID: int := 65535
  const MIN_RESEARCHER_ID: int := 10000

  /** How many keys there are: the bound getRandomID passes to nextInt. */
  const ID_RANGE: int := MAX_RESEARCHER_ID - MIN_RESEARCHER_ID + 1

  predicate InIDRange(n: int) {
    MIN_RESEARCHER_ID <= n <= MAX_RESEARCHER_ID
  }

  /** The integers in [lo, hi). */
  function Range(lo: int, hi: int): (r: set<int>)
    ensures forall n :: n in r <==> lo <= n < hi
    ensures lo <= hi ==> |r| == hi - lo
    decreases hi - lo
  {
    if lo >= hi then {} else {lo} + Range(lo + 1, hi)
  }

  /** Every key getRandomID can draw. */
  function IDRange(): set<int> {
    Range(MIN_RESEARCHER_ID, MAX_RESEARCHER_ID + 1)
  }

  //==========================================================================
  // Key space
  //==========================================================================

  lemma SubsetSize(a: set<int>, b: set<int>)
    requires a <= b
    ensures |a| <= |b|
  {
    assert b == a + (b - a);
  }

  /** Fewer keys in use than there are keys: some key is still free, so the
      do-while of initID can stop. */
  lemma FreeIDExists(used: set<int>)
    requires forall n :: n in used ==> InIDRange(n)
    requires |used| < ID_RANGE
    ensures exists n :: InIDRange(n) && n !in used
  {
    if forall n :: InIDRange(n) ==> n in used {
      SubsetSize(IDRange(), used);
      assert false;
    }
  }

  //==========================================================================
  // Dates
  //==========================================================================

  /** dateToUnixTime: a Date's milliseconds divided by 1000, rounding toward zero. */
  function DateToUnixTime(ms: int): int {
    Quot(ms, 1000)
  }

  /** A query bound: 0 for a null date, its Unix time otherwise. */
  function BoundSeconds(date: Option<int>): int {
    if date.None? then 0 else DateToUnixTime(date.value)
  }

  /** Unix seconds stored by addNewCertificate come back as milliseconds in the
      Certificate constructor, and dateToUnixTime turns those into the same
      seconds: the conversions are inverse for every instant, before 1970 too. */
  lemma SecondsRoundTrip(seconds: int)
    ensures DateToUnixTime(seconds * 1000) == seconds
  {
    if seconds < 0 {
      assert -(seconds * 1000) == (-seconds) * 1000;
    }
  }

  /** A Date's time truncated to whole seconds: its milliseconds lie within a
      second of the result, on the side of zero. */
  lemma DateToUnixTimeBounds(ms: int)
    ensures 0 <= ms ==> DateToUnixTime(ms) * 1000 <= ms < DateToUnixTime(ms) * 1000 + 1000
    ensures ms < 0 ==> DateToUnixTime(ms) * 1000 - 1000 < ms <= DateToUnixTime(ms) * 1000
  {
  }

  //==========================================================================
  // The queryAll filter
  //==========================================================================

  /** The search parameters of a web query; "" and null mean "not given". */
  datatype Criteria = Criteria(firstName: string, lastName: string, email: string,
                               low: Option<int>, high: Option<int>)

  /** queryAll's promise: a certificate matches every parameter that was given.
      The end date must lie after the low bound and not after the high one. */
  predicate Matches(c: Certificate, q: Criteria)
    reads c
  {
    && (q.firstName == "" || q.firstName == c.firstName)
    && (q.lastName == "" || q.lastName == c.lastName)
    && (q.email == "" || c.email == Some(q.email))
    && (q.low.None? || q.low.value < c.endDate)
    && (q.high.None? || c.endDate <= q.high.value)
  }

  /** The matching certificates of xs, in their order in xs. */
  function Survivors(xs: seq<Certificate>, q: Criteria): (r: seq<Certificate>)
    reads set c | c in xs
    ensures |r| <= |xs|
  {
    if xs == [] then []
    else
      var last := xs[|xs| - 1];
      Survivors(xs[..|xs| - 1], q) + (if Matches(last, q) then [last] else [])
  }

  /** A certificate survives the filter exactly when it was in the list and
      matches every given parameter. */
  lemma {:induction false} SurvivorsMembership(xs: seq<Certificate>, q: Criteria)
    ensures forall c :: c in Survivors(xs, q) <==> c in xs && Matches(c, q)
  {
    if xs != [] {
      var init := xs[..|xs| - 1];
      SurvivorsMembership(init, q);
      assert xs == init + [xs[|xs| - 1]];
    }
  }

  /** With no parameter given nothing is removed. */
  lemma {:induction false} NoCriteriaKeepsAll(xs: seq<Certificate>)
    ensures Survivors(xs, Criteria("", "", "", None, None)) == xs
  {
    if xs != [] {
      NoCriteriaKeepsAll(xs[..|xs| - 1]);
    }
  }

  /** Extending the list by one element extends the survivors by it when it
      matches. */
  lemma SurvivorsStep(d: seq<Certificate>, j: nat, q: Criteria)
    requires j < |d|
    ensures Survivors(d[..j + 1], q) == Survivors(d[..j], q) + (if Matches(d[j], q) then [d[j]] else [])
  {
    assert d[..j + 1][..j] == d[..j];
  }

  /** The state of an in-place filter of d after visiting d[..j]: the list holds
      the survivors of d[..j] followed by the unvisited d[j..], and i points just
      past the survivors. */
  predicate FilterState(d: seq<Certificate>, q: Criteria, j: nat, items: seq<Certificate>, i: nat)
    reads set c | c in d
  {
    && j <= |d|
    && items == Survivors(d[..j], q) + d[j..]
    && i == |Survivors(d[..j], q)|
  }

  /** One step of an in-place filter: i points at d[j]; removing it when it does
      not match, or stepping past it when it does, keeps the filter's state. */
  lemma FilterStep(d: seq<Certificate>, q: Criteria, j: nat, items: seq<Certificate>, i: nat)
    requires FilterState(d, q, j, items, i) && j < |d|
    ensures i < |items| && items[i] == d[j]
    ensures !Matches(d[j], q) ==> FilterState(d, q, j + 1, items[..i] + items[i + 1..], i)
    ensures Matches(d[j], q) ==> FilterState(d, q, j + 1, items, i + 1)
  {
    var kept := Survivors(d[..j], q);
    assert items[..i] == kept && items[i + 1..] == d[j + 1..];
    assert d[j..] == [d[j]] + d[j + 1..];
    SurvivorsStep(d, j, q);
  }

  /** The filter starts with nothing visited, and once i has reached the end
      of the list every element has been visited and the list holds exactly the
      survivors. */
  lemma FilterEnds(d: seq<Certificate>, q: Criteria, j: nat, items: seq<Certificate>, i: nat)
    ensures FilterState(d, q, 0, d, 0)
    ensures FilterState(d, q, j, items, i) && i >= |items| ==>
              j == |d| && items == Survivors(d, q) && i == |items|
  {
    assert d[..0] == [] && d[0..] == d;
    assert d[..|d|] == d && d[|d|..] == [];
  }

  /** The if-else chain in the body of queryAllFromWeb's iterator loop: whether
      the current certificate is removed. It is removed exactly when it does not
      match. */
  method FailsCriteria(temp: Certificate, q: Criteria) returns (remove: bool)
    ensures remove <==> !Matches(temp, q)
  {
    remove := false;
    if q.firstName != "" && q.firstName != temp.firstName {
      remove := true;
    } else if q.lastName != "" && q.lastName != temp.lastName {
      remove := true;
    } else if q.email != "" && Some(q.email) != temp.email {
      remove := true;
    } else if q.low.Some? && !(q.low.value < temp.endDate) {      // !low.before(endDate)
      remove := true;
    } else if q.high.Some? && q.high.value < temp.endDate {       // high.before(endDate)
      remove := true;
    }
  }

  /** The iterator loop of queryAllFromWeb over the list's contents: walks them
      and removes, in place, each certificate that fails one of the tests. */
  method FilterMatching(d: seq<Certificate>, q: Criteria) returns (items: seq<Certificate>)
    ensures items == Survivors(d, q)
  {
    items := d;
    var i := 0;
    ghost var j := 0;
    FilterEnds(d, q, j, items, i);
    while i < |items|
      invariant FilterState(d, q, j, items, i)
      decreases |d| - j
    {
      FilterStep(d, q, j, items, i);
      var temp := items[i];
      var remove := FailsCriteria(temp, q);
      if remove {
        assert !Matches(d[j], q);
        items := items[..i] + items[i + 1..];    // iter.remove()
      } else {
        assert Matches(d[j], q);
        i := i + 1;
      }
      j := j + 1;
    }
    FilterEnds(d, q, j, items, i);
  }

  /** The filter applied to the list queryAll returned, which it updates. */
  method RemoveNonMatching(result: ArrayList<Certificate>, q: Criteria)
    modifies result
    ensures result.items == Survivors(old(result.items), q)
  {
    var items := FilterMatching(result.items, q);
    result.items := items;
  }

  //==========================================================================
  // The web database
  //==========================================================================

  /** Three keys minted in a row, each either the string's existing key or a
      new entry: the map gains exactly the three strings, keeps every existing
      key, and ends with the three keys returned. */
  lemma ThreeKeys(m0: map<string, int>, m1: map<string, int>, m2: map<string, int>, m3: map<string, int>,
                  a: string, b: string, c: string, ka: int, kb: int, kc: int)
    requires m1 == m0[a := ka] && (a in m0 ==> ka == m0[a])
    requires m2 == m1[b := kb] && (b in m1 ==> kb == m1[b])
    requires m3 == m2[c := kc] && (c in m2 ==> kc == m2[c])
    ensures m3.Keys == m0.Keys + {a, b, c}
    ensures forall s :: s in m0 ==> m3[s] == m0[s]
    ensures m3[a] == ka && m3[b] == kb && m3[c] == kc
  {
  }

  /** Minting a key for a string of ss spends at most the one key that the
      string needed. */
  lemma MintSpendsRoom(ss: set<string>, known: set<string>, s: string, used: nat, used': nat)
    requires s in ss
    requires s in known ==> used' == used
    requires s !in known ==> used' == used + 1
    ensures used' + |ss - (known + {s})| <= used + |ss - known|
  {
    if s in known {
      assert ss - (known + {s}) == ss - known;
    } else {
      assert ss - (known + {s}) == (ss - known) - {s};
    }
  }

  /** A string of ss without a key is one of the keys the room counts on. */
  lemma NeedsRoom(ss: set<string>, known: set<string>, s: string, used: nat)
    requires s in ss && used + |ss - known| <= ID_RANGE
    ensures s !in known ==> used < ID_RANGE
  {
    if s !in known {
      assert s in ss - known;
    }
  }

  class WebCertificateDB {
    var mapStringToInt: map<string, int>
    var mapIntToString: map<int, string>
    const sc: SC.CertificateDBSC

    /** The two maps are inverse to each other and every key is in range. */
    predicate Valid()
      reads this
    {
      && (forall s :: s in mapStringToInt ==>
            mapStringToInt[s] in mapIntToString && mapIntToString[mapStringToInt[s]] == s)
      && (forall n :: n in mapIntToString ==>
            mapIntToString[n] in mapStringToInt && mapStringToInt[mapIntToString[n]] == n)
      && (forall n :: n in mapIntToString ==> InIDRange(n))
    }

    /** Both constructors: empty maps, and a contract deployed or loaded. */
    constructor (sc: SC.CertificateDBSC)
      ensures Valid() && this.sc == sc
      ensures mapStringToInt == map[] && mapIntToString == map[]
    {
      mapStringToInt := map[];
      mapIntToString := map[];
      this.sc := sc;
    }

    /** getRandomID: nextInt(ID_RANGE) + MIN_RESEARCHER_ID. The generator itself
        is not modelled: a draw is any key in range other than those the current
        search already rejected, since drawing one of them again changes nothing. */
    method GetRandomID(rejected: set<int>) returns (id: int)
      requires exists n :: InIDRange(n) && n !in rejected
      ensures InIDRange(id) && id !in rejected
    {
      id :| InIDRange(id) && id !in rejected;
    }

    /** initID: the string's existing key, or a fresh key in range, recorded in
        both maps. */
    method InitID(stringID: string) returns (numID: int)
      requires Valid() && (stringID !in mapStringToInt ==> |mapIntToString| < ID_RANGE)
      modifies this
      ensures Valid()
      ensures stringID in mapStringToInt && mapStringToInt[stringID] == numID
      ensures stringID in old(mapStringToInt) ==>
                numID == old(mapStringToInt[stringID])
                && mapStringToInt == old(mapStringToInt) && mapIntToString == old(mapIntToString)
      ensures stringID !in old(mapStringToInt) ==>
                InIDRange(numID) && numID !in old(mapIntToString)
                && mapStringToInt == old(mapStringToInt)[stringID := numID]
                && mapIntToString == old(mapIntToString)[numID := stringID]
      ensures mapStringToInt == old(mapStringToInt)[stringID := numID]
      ensures mapStringToInt.Keys == old(mapStringToInt.Keys) + {stringID}
      ensures stringID in old(mapStringToInt) ==> |mapIntToString| == |old(mapIntToString)|
      ensures stringID !in old(mapStringToInt) ==> |mapIntToString| == |old(mapIntToString)| + 1
    {
      if stringID in mapStringToInt {
        return mapStringToInt[stringID];
      }
      FreeIDExists(mapIntToString.Keys);
      ghost var free :| InIDRange(free) && free !in mapIntToString;
      var rejected: set<int> := {};
      numID := GetRandomID(rejected);
      while numID in mapIntToString
        invariant mapStringToInt == old(mapStringToInt) && mapIntToString == old(mapIntToString)
        invariant rejected <= mapIntToString.Keys && free !in rejected
        invariant InIDRange(numID) && numID !in rejected
        decreases IDRange() - rejected
      {
        rejected := rejected + {numID};
        numID := GetRandomID(rejected);
      }
      mapStringToInt := mapStringToInt[stringID := numID];
      mapIntToString := mapIntToString[numID := stringID];
    }

    /** The key a web query sends for a string parameter: its key when the
        string is non-empty and known, 0 otherwise. */
    function ResolveKey(s: string): (key: int)
      reads this
      ensures Valid() ==> (key == 0 <==> s == "" || s !in mapStringToInt)
      ensures key != 0 ==> s in mapStringToInt && key == mapStringToInt[s]
    {
      if s != "" && s in mapStringToInt then mapStringToInt[s] else 0
    }

    /** There are enough free keys for initID to mint one for each string of ss
        that has none yet: strings that already have a key need none. */
    predicate Room(ss: set<string>)
      reads this
    {
      |mapIntToString| + |ss - mapStringToInt.Keys| <= ID_RANGE
    }

    /** The three initID calls of addNewCertificateFromWeb, in their order. */
    method InitKeys(email: string, firstName: string, lastName: string)
      returns (researcherID: int, firstNameKey: int, lastNameKey: int)
      requires Valid() && Room({email, firstName, lastName})
      modifies this
      ensures Valid()
      ensures mapStringToInt.Keys == old(mapStringToInt.Keys) + {email, firstName, lastName}
      ensures forall s :: s in old(mapStringToInt) ==> mapStringToInt[s] == old(mapStringToInt[s])
      ensures researcherID == mapStringToInt[email] && firstNameKey == mapStringToInt[firstName]
      ensures lastNameKey == mapStringToInt[lastName]
    {
      ghost var ss := {email, firstName, lastName};
      ghost var m0, n0 := mapStringToInt, |mapIntToString|;
      NeedsRoom(ss, m0.Keys, email, n0);
      researcherID := InitID(email);
      ghost var m1, n1 := mapStringToInt, |mapIntToString|;
      MintSpendsRoom(ss, m0.Keys, email, n0, n1);
      NeedsRoom(ss, m1.Keys, firstName, n1);
      firstNameKey := InitID(firstName);
      ghost var m2, n2 := mapStringToInt, |mapIntToString|;
      MintSpendsRoom(ss, m1.Keys, firstName, n1, n2);
      NeedsRoom(ss, m2.Keys, lastName, n2);
      lastNameKey := InitID(lastName);
      ThreeKeys(m0, m1, m2, mapStringToInt, email, firstName, lastName,
                researcherID, firstNameKey, lastNameKey);
    }

    /** addNewCertificateFromWeb: keys for email, first and last name are minted
        first; a null end date then throws before the contract is called; every
        exception becomes false. */
    method AddNewCertificateFromWeb(firstName: string, lastName: string, email: string,
                                    certificateType: Option<int>, recordID: Option<int>,
                                    courseName: string, endDate: Option<int>,
                                    pdf: Option<seq<Byte>>, nulls: nat -> nat) returns (ok: bool)
      requires Valid() && Room({email, firstName, lastName})
      modifies this, sc.contract
      ensures Valid()
      ensures ok <==> endDate.Some? && certificateType.Some? && recordID.Some? && pdf.Some?
      ensures mapStringToInt.Keys == old(mapStringToInt.Keys) + {email, firstName, lastName}
      ensures forall s :: s in old(mapStringToInt) ==> mapStringToInt[s] == old(mapStringToInt[s])
      ensures sc.contract.queries == old(sc.contract.queries)
      ensures endDate.None? || certificateType.None? || recordID.None? ==>
                sc.contract.sent == old(sc.contract.sent)
                && sc.contract.requested == old(sc.contract.requested)
      ensures endDate.Some? && certificateType.Some? && recordID.Some? ==>
                var record := AddCertificate(NewCertificate(email, mapStringToInt[email], firstName,
                                lastName, mapStringToInt[firstName], mapStringToInt[lastName],
                                certificateType.value, recordID.value, courseName,
                                DateToUnixTime(endDate.value)));
                var calls := if pdf.Some? then SC.UploadCalls(recordID.value, pdf.value) else [];
                && sc.contract.sent == old(sc.contract.sent) + [record] + SC.Dispatched(calls)
                && sc.contract.requested == old(sc.contract.requested) + SC.Requests(calls, nulls)
    {
      var researcherID, firstNameKey, lastNameKey := InitKeys(email, firstName, lastName);
      if endDate.None? {
        return false;                          // dateToUnixTime(null)
      }
      var r := sc.AddNewCertificate(email, researcherID, firstName, lastName, firstNameKey,
                                    lastNameKey, certificateType, recordID, courseName,
                                    DateToUnixTime(endDate.value), pdf, nulls);
      ok := r.Success?;
    }

    /** queryAnyFromWeb: the contract's answer for the resolved keys and bounds,
        or null when the call fails. */
    method QueryAnyFromWeb(firstName: string, lastName: string, email: string,
                           endDateRangeLow: Option<int>, endDateRangeHigh: Option<int>,
                           response: Option<seq<Certificate>>)
      returns (r: Option<ArrayList<Certificate>>)
      modifies sc.contract, SC.Objects(response)
      ensures sc.contract.queries == old(sc.contract.queries)
                + [QueryCall.QueryAny(ResolveKey(firstName), ResolveKey(lastName), ResolveKey(email),
                                      BoundSeconds(endDateRangeLow), BoundSeconds(endDateRangeHigh))]
      ensures sc.contract.sent == old(sc.contract.sent)
      ensures sc.contract.requested == old(sc.contract.requested)
      ensures response.None? <==> r.None?
      ensures response.Some? ==>
                r.Some? && fresh(r.value) && SC.PostProcessed(response.value, r.value.items)
    {
      var low := if endDateRangeLow.None? then 0 else DateToUnixTime(endDateRangeLow.value);
      var high := if endDateRangeHigh.None? then 0 else DateToUnixTime(endDateRangeHigh.value);
      var res := sc.QueryAny(ResolveKey(firstName), ResolveKey(lastName), ResolveKey(email),
                             low, high, response);
      r := if res.Success? then Some(res.value) else None;
    }

    /** queryAllFromWeb: the contract's answer for the resolved keys and bounds,
        deduplicated and converted, then filtered down to the certificates that
        match every given parameter; null when the call fails. */
    method QueryAllFromWeb(firstName: string, lastName: string, email: string,
                           endDateRangeLow: Option<int>, endDateRangeHigh: Option<int>,
                           response: Option<seq<Certificate>>)
      returns (r: Option<ArrayList<Certificate>>)
      modifies sc.contract, SC.Objects(response)
      ensures sc.contract.queries == old(sc.contract.queries)
                + [QueryCall.QueryAll(ResolveKey(firstName), ResolveKey(lastName), ResolveKey(email),
                                      BoundSeconds(endDateRangeLow), BoundSeconds(endDateRangeHigh))]
      ensures sc.contract.sent == old(sc.contract.sent)
      ensures sc.contract.requested == old(sc.contract.requested)
      ensures response.None? <==> r.None?
      ensures response.Some? ==>
                var d := FirstOccurrences(response.value, old(FieldsOf(response.value)));
                && r.Some? && fresh(r.value)
                && SC.PostProcessed(response.value, d)
                && r.value.items
                   == Survivors(d, Criteria(firstName, lastName, email, endDateRangeLow, endDateRangeHigh))
    {
      var low := if endDateRangeLow.None? then 0 else DateToUnixTime(endDateRangeLow.value);
      var high := if endDateRangeHigh.None? then 0 else DateToUnixTime(endDateRangeHigh.value);
      var res := sc.QueryAll(ResolveKey(firstName), ResolveKey(lastName), ResolveKey(email),
                             low, high, response);
      if res.Failure? {
        return None;
      }
      var result := res.value;
      RemoveNonMatching(result, Criteria(firstName, lastName, email, endDateRangeLow, endDateRangeHigh));
      r := Some(result);
    }

    /** getAllCertificates: the contract's whole table, or null when the call fails. */
    method GetAllCertificates(response: Option<seq<Certificate>>)
      returns (r: Option<ArrayList<Certificate>>)
      modifies sc.contract, SC.Objects(response)
      ensures sc.contract.queries == old(sc.contract.queries) + [QueryCall.GetAllCertificates]
      ensures sc.contract.sent == old(sc.contract.sent)
      ensures sc.contract.requested == old(sc.contract.requested)
      ensures response.None? <==> r.None?
      ensures response.Some? ==>
                r.Some? && fresh(r.value) && SC.PostProcessed(response.value, r.value.items)
    {
      var res := sc.GetAllCertificates(response);
      r := if res.Success? then Some(res.value) else None;
    }

    /** getPDFBytes: the contract client's read-back, exceptions included. */
    method GetPDFBytes(recordID: int) returns (r: Result<seq<Byte>, JavaException>)
      ensures r == SC.ReadBack(sc.contract.sent, recordID)
    {
      r := sc.GetPDFBytes(recordID);
    }

    /** hasValidCertificateFromWeb: true only when the string has a key and the
        contract says yes; an unknown string is unboxed from null, which throws. */
    method HasValidCertificateFromWeb(researcherID: string, response: Option<bool>)
      returns (valid: bool)
      modifies sc.contract
      ensures valid <==> researcherID in mapStringToInt && response == Some(true)
      ensures researcherID !in mapStringToInt ==> sc.contract.queries == old(sc.contract.queries)
      ensures researcherID in mapStringToInt ==>
                sc.contract.queries
                == old(sc.contract.queries) + [QueryCall.HasValidCertificate(mapStringToInt[researcherID])]
      ensures sc.contract.sent == old(sc.contract.sent)
      ensures sc.contract.requested == old(sc.contract.requested)
    {
      var key := if researcherID in mapStringToInt then Some(mapStringToInt[researcherID]) else None;
      var res := sc.HasValidCertificate(key, response);
      valid := if res.Success? then res.value else false;
    }

    /** getCertificateCount: the contract's count as an int, or -1 when the call
        fails. */
    method GetCertificateCount(response: Option<int>) returns (count: int)
      modifies sc.contract
      ensures response.None? ==> count == -1
      ensures response.Some? ==> INT_MIN <= count <= INT_MAX && (response.value - count) % 0x1_0000_0000 == 0
      ensures response.Some? && 0 <= response.value <= INT_MAX ==> count == response.value
      ensures sc.contract.queries == old(sc.contract.queries) + [QueryCall.GetCertificateCount]
      ensures sc.contract.sent == old(sc.contract.sent)
      ensures sc.contract.requested == old(sc.contract.requested)
    {
      var res := sc.GetCertificateCount(response);
      count := if res.Success? then res.value else -1;
    }
  }

  /** Distinct known strings have distinct keys: a key sent to the contract
      stands for one string only. */
  lemma KeysIdentifyStrings(db: WebCertificateDB, s: string, t: string)
    requires db.Valid()
    requires db.ResolveKey(s) != 0 && db.ResolveKey(s) == db.ResolveKey(t)
    ensures s == t
  {
  }
}
