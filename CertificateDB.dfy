/** The on-chain CertificateDB contract as the client sees it through its web3j
    wrapper. The Solidity code is not part of this model: the ledger is the
    sequence of transactions the client has dispatched, and what the contract
    reports about PDF slices is a function of that sequence. */
module CertificateDB {
  import opened Wrappers
  import opened JavaLang

  /** The arguments of one addCertificateBytes request: a slice of the PDF of a
      record, at an index. */
  datatype SliceCall = SliceCall(recordID: int, index: int, data: seq<Byte>)

  /** The arguments of one addNewCertificate request. */
  datatype NewCertificate = NewCertificate(
    email: string,
    researcherID: int,
    firstName: string,
    lastName: string,
    firstNameKey: int,
    lastNameKey: int,
    certificateType: int,
    recordID: int,
    courseName: string,
    endDate: int)             // seconds since the epoch

  /** A transaction handed to sendAsync. */
  datatype Transaction =
    | AddCertificate(record: NewCertificate)
    | AddBytes(slice: SliceCall)

  /** The query primitives of the contract, with the arguments they were called with. */
  datatype QueryCall =
    | QueryAll(firstNameKey: int, lastNameKey: int, researcherID: int, low: int, high: int)
    | QueryAny(firstNameKey: int, lastNameKey: int, researcherID: int, low: int, high: int)
    | GetAllCertificates
    | HasValidCertificate(researcherID: int)
    | GetCertificateCount

  /** Whether a transaction writes the slice (recordID, index). */
  predicate WritesSlice(t: Transaction, recordID: int, index: int) {
    t.AddBytes? && t.slice.recordID == recordID && t.slice.index == index
  }

  /** Whether a transaction writes some slice of recordID. */
  predicate WritesRecord(t: Transaction, recordID: int) {
    t.AddBytes? && t.slice.recordID == recordID
  }

  /** The bytes stored at (recordID, index): those of the last write there, or
      the empty byte string the contract answers for a slot never written. */
  function StoredSlice(log: seq<Transaction>, recordID: int, index: int): (data: seq<Byte>)
    ensures (forall k :: 0 <= k < |log| ==> !WritesSlice(log[k], recordID, index)) ==> data == []
  {
    if log == [] then []
    else
      var t := log[|log| - 1];
      if WritesSlice(t, recordID, index) then t.slice.data
      else StoredSlice(log[..|log| - 1], recordID, index)
  }

  /** What getCertificateBytesLength reports: one more than the highest index
      written for the record, 0 when none was. */
  function SliceCount(log: seq<Transaction>, recordID: int): (n: nat)
    ensures forall k :: 0 <= k < |log| && WritesRecord(log[k], recordID) ==>
              log[k].slice.index < n
    ensures n > 0 ==> exists k :: 0 <= k < |log| && WritesRecord(log[k], recordID)
                                  && log[k].slice.index == n - 1
  {
    if log == [] then 0
    else
      var t := log[|log| - 1];
      var c := SliceCount(log[..|log| - 1], recordID);
      if WritesRecord(t, recordID) && t.slice.index >= c then t.slice.index + 1 else c
  }

  /** The contract wrapper, as the log of what the client asked of it. */
  class Contract {
    var sent: seq<Transaction>        // transactions dispatched with sendAsync, in order
    var requested: seq<SliceCall>     // every addCertificateBytes request, null answer or not
    var queries: seq<QueryCall>       // every query sent, in order

    constructor ()
      ensures sent == [] && requested == [] && queries == []
    {
      sent := [];
      requested := [];
      queries := [];
    }

    /** contract.addCertificateBytes: the RemoteCall for the request, or null.
        Whether the wrapper hands back null this time is up to the environment,
        so it is a parameter, like the answers of queries. */
    method AddCertificateBytes(call: SliceCall, answersNull: bool) returns (r: Option<SliceCall>)
      modifies this
      ensures requested == old(requested) + [call]
      ensures sent == old(sent) && queries == old(queries)
      ensures r == if answersNull then None else Some(call)
    {
      requested := requested + [call];
      r := if answersNull then None else Some(call);
    }

    /** RemoteCall.sendAsync: the transaction is dispatched and not awaited. */
    method SendAsync(t: Transaction)
      modifies this
      ensures sent == old(sent) + [t]
      ensures requested == old(requested) && queries == old(queries)
    {
      sent := sent + [t];
    }

    /** A query RemoteCall's send(): the call is recorded; its answer is supplied
        by the caller of the client, since the contract's code is not modelled. */
    method Send(q: QueryCall)
      modifies this
      ensures queries == old(queries) + [q]
      ensures sent == old(sent) && requested == old(requested)
    {
      queries := queries + [q];
    }

    /** getCertificateBytesLength(recordID).send() */
    function CertificateBytesLength(recordID: int): (n: nat)
      reads this
      ensures (forall k :: 0 <= k < |sent| ==> !WritesRecord(sent[k], recordID)) ==> n == 0
    {
      SliceCount(sent, recordID)
    }

    /** getCertificateBytes(recordID, index).send() */
    function CertificateBytes(recordID: int, index: int): (data: seq<Byte>)
      reads this
      ensures (forall k :: 0 <= k < |sent| ==> !WritesSlice(sent[k], recordID, index)) ==> data == []
    {
      StoredSlice(sent, recordID, index)
    }
  }

  /** Writing a slice makes it the stored one; other slots keep their bytes. */
  lemma StoredSliceAfterWrite(log: seq<Transaction>, c: SliceCall, recordID: int, index: int)
    ensures StoredSlice(log + [AddBytes(c)], recordID, index)
            == if c.recordID == recordID && c.index == index then c.data
               else StoredSlice(log, recordID, index)
  {
    assert (log + [AddBytes(c)])[..|log|] == log;
  }

  /** Writing a slice raises the record's count to cover its index, and leaves the
      other records' counts alone. */
  lemma SliceCountAfterWrite(log: seq<Transaction>, c: SliceCall, recordID: int)
    ensures SliceCount(log + [AddBytes(c)], recordID)
            == if c.recordID == recordID && c.index >= SliceCount(log, recordID) then c.index + 1
               else SliceCount(log, recordID)
  {
    assert (log + [AddBytes(c)])[..|log|] == log;
  }
}
