/** CertificateDBSC.java: the client of the CertificateDB contract. It cuts a PDF
    into slices small enough for one transaction each, reads the slices back and
    joins them, and post-processes query results (duplicates removed, end dates
    turned from seconds into milliseconds). */
module CertificateDBSC {
  import opened Wrappers
  import opened JavaLang
  import opened CertificateBean
  import opened CertificateUtils
  import opened CertificateDB

  const KILOBYTE_IN_BYTES: nat := 1024
  /** 30 * KILOBYTE_IN_BYTES, written out. */
  const BYTE_SIZE_OF_PDF_SLICE: nat := 30720

  //==========================================================================
  // The upload plan
  //==========================================================================

  /** `(int) Math.ceil(n / (double) BYTE_SIZE_OF_PDF_SLICE)`, exact for every
      array length. */
  function NumSlices(n: nat): nat {
    (n + BYTE_SIZE_OF_PDF_SLICE - 1) / BYTE_SIZE_OF_PDF_SLICE
  }

  /** The slice count is the ceiling of n / 30720: the fewest slices of 30720
      bytes that cover n bytes, and none for an empty PDF. */
  lemma NumSlicesIsCeiling(n: nat)
    ensures NumSlices(n) * BYTE_SIZE_OF_PDF_SLICE >= n
    ensures (NumSlices(n) - 1) * BYTE_SIZE_OF_PDF_SLICE < n
    ensures NumSlices(n) == 0 <==> n == 0
  {
  }

  lemma NumSlicesAtMost(n: nat)
    ensures NumSlices(n) <= n
  {
    if n > 0 {
      assert n + BYTE_SIZE_OF_PDF_SLICE - 1 < (n + 1) * BYTE_SIZE_OF_PDF_SLICE;
    }
  }

  /** The size chosen for the slice that starts at start: a full slice when more
      than a full slice remains, otherwise `n - start - 1`. */
  function SliceSize(n: nat, start: int): int {
    if start + BYTE_SIZE_OF_PDF_SLICE < n then BYTE_SIZE_OF_PDF_SLICE else n - start - 1
  }

  /** Slice i as uploadFullPDF copies it out of the PDF. */
  function PlannedSlice(pdf: seq<Byte>, i: nat): (s: seq<Byte>)
    requires i < NumSlices(|pdf|)
  {
    var start := i * BYTE_SIZE_OF_PDF_SLICE;
    pdf[start .. start + SliceSize(|pdf|, start)]
  }

  /** Every slice uploadFullPDF cuts, in index order. */
  function PlannedSlices(pdf: seq<Byte>): (ss: seq<seq<Byte>>)
    ensures |ss| == NumSlices(|pdf|)
  {
    seq(NumSlices(|pdf|), i requires 0 <= i < NumSlices(|pdf|) => PlannedSlice(pdf, i))
  }

  /** The addCertificateBytes requests uploadFullPDF makes, one per slice. */
  function UploadCalls(recordID: int, pdf: seq<Byte>): (calls: seq<SliceCall>)
    ensures |calls| == NumSlices(|pdf|)
  {
    seq(NumSlices(|pdf|), i requires 0 <= i < NumSlices(|pdf|) =>
      SliceCall(recordID, i, PlannedSlices(pdf)[i]))
  }

  /** The transactions dispatched for a sequence of requests. */
  function Dispatched(calls: seq<SliceCall>): (ts: seq<Transaction>)
    ensures |ts| == |calls|
  {
    seq(|calls|, i requires 0 <= i < |calls| => AddBytes(calls[i]))
  }

  /** k copies of one request. */
  function Repeat(c: SliceCall, k: nat): (cs: seq<SliceCall>)
    ensures |cs| == k && forall i :: 0 <= i < k ==> cs[i] == c
  {
    seq(k, _ => c)
  }

  /** The requests made for a sequence of slices when the wrapper answers the
      first nulls(i) requests for slice i with null: slice i is asked for
      nulls(i) + 1 times, and the slices are asked for in order. */
  function Requests(calls: seq<SliceCall>, nulls: nat -> nat): seq<SliceCall> {
    if calls == [] then []
    else Requests(calls[..|calls| - 1], nulls) + Repeat(calls[|calls| - 1], nulls(|calls| - 1) + 1)
  }

  /** The null answers given to the first n slices. */
  function NullCount(n: nat, nulls: nat -> nat): nat {
    if n == 0 then 0 else NullCount(n - 1, nulls) + nulls(n - 1)
  }

  /** The bytes of a sequence of slices, joined in order. */
  function Concat(ss: seq<seq<Byte>>): (r: seq<Byte>)
  {
    if ss == [] then [] else Concat(ss[..|ss| - 1]) + ss[|ss| - 1]
  }

  /** Each slice is tagged with the record and its index, every slice but the
      last is exactly the 30720 bytes of the PDF from i * 30720 on, and the last
      one runs from its start to the PDF's second-to-last byte. */
  lemma UploadCallsShape(recordID: int, pdf: seq<Byte>)
    ensures var calls, m := UploadCalls(recordID, pdf), NumSlices(|pdf|);
            forall i :: 0 <= i < m ==>
              && calls[i].recordID == recordID && calls[i].index == i
              && (i < m - 1 ==>
                    |calls[i].data| == BYTE_SIZE_OF_PDF_SLICE
                    && calls[i].data == pdf[i * BYTE_SIZE_OF_PDF_SLICE .. (i + 1) * BYTE_SIZE_OF_PDF_SLICE])
              && (i == m - 1 ==> calls[i].data == pdf[i * BYTE_SIZE_OF_PDF_SLICE .. |pdf| - 1])
  {
    var calls, m := UploadCalls(recordID, pdf), NumSlices(|pdf|);
    NumSlicesIsCeiling(|pdf|);
    forall i | 0 <= i < m
      ensures i < m - 1 ==>
                |calls[i].data| == BYTE_SIZE_OF_PDF_SLICE
                && calls[i].data == pdf[i * BYTE_SIZE_OF_PDF_SLICE .. (i + 1) * BYTE_SIZE_OF_PDF_SLICE]
      ensures i == m - 1 ==> calls[i].data == pdf[i * BYTE_SIZE_OF_PDF_SLICE .. |pdf| - 1]
    {
      var start := i * BYTE_SIZE_OF_PDF_SLICE;
      assert calls[i].data == PlannedSlices(pdf)[i] == PlannedSlice(pdf, i);
      if i < m - 1 {
        assert (i + 1) * BYTE_SIZE_OF_PDF_SLICE <= (m - 1) * BYTE_SIZE_OF_PDF_SLICE;
        assert start + BYTE_SIZE_OF_PDF_SLICE == (i + 1) * BYTE_SIZE_OF_PDF_SLICE;
      } else {
        assert start + BYTE_SIZE_OF_PDF_SLICE == m * BYTE_SIZE_OF_PDF_SLICE;
      }
    }
  }

  /** Request i of the upload carries the record, the index and planned slice i. */
  lemma PlannedCall(recordID: int, pdf: seq<Byte>, i: nat)
    requires i < NumSlices(|pdf|)
    ensures UploadCalls(recordID, pdf)[i] == SliceCall(recordID, i, PlannedSlice(pdf, i))
  {
    assert PlannedSlices(pdf)[i] == PlannedSlice(pdf, i);
  }

  /** The full slices before slice k join to the first k * 30720 bytes. */
  lemma {:induction false} PlannedPrefix(pdf: seq<Byte>, k: nat)
    requires k < NumSlices(|pdf|)
    ensures k * BYTE_SIZE_OF_PDF_SLICE < |pdf|
    ensures Concat(PlannedSlices(pdf)[..k]) == pdf[..k * BYTE_SIZE_OF_PDF_SLICE]
  {
    var ss := PlannedSlices(pdf);
    NumSlicesIsCeiling(|pdf|);
    assert k * BYTE_SIZE_OF_PDF_SLICE <= (NumSlices(|pdf|) - 1) * BYTE_SIZE_OF_PDF_SLICE;
    if k > 0 {
      PlannedPrefix(pdf, k - 1);
      var start := (k - 1) * BYTE_SIZE_OF_PDF_SLICE;
      assert ss[..k][..k - 1] == ss[..k - 1];
      assert ss[k - 1] == pdf[start .. start + BYTE_SIZE_OF_PDF_SLICE];
      assert pdf[..start] + pdf[start .. start + BYTE_SIZE_OF_PDF_SLICE] == pdf[..k * BYTE_SIZE_OF_PDF_SLICE];
    }
  }

  /** The uploaded slices join to the PDF without its last byte: every
      non-empty upload, exact multiples of 30720 included, loses one byte. */
  lemma UploadLosesLastByte(pdf: seq<Byte>)
    requires |pdf| > 0
    ensures Concat(PlannedSlices(pdf)) == pdf[..|pdf| - 1]
  {
    var ss, m := PlannedSlices(pdf), NumSlices(|pdf|);
    NumSlicesIsCeiling(|pdf|);
    PlannedPrefix(pdf, m - 1);
    var start := (m - 1) * BYTE_SIZE_OF_PDF_SLICE;
    assert ss[..m][..m - 1] == ss[..m - 1] && ss[..m] == ss;
    assert ss[m - 1] == pdf[start .. |pdf| - 1];
    assert pdf[..start] + pdf[start .. |pdf| - 1] == pdf[..|pdf| - 1];
  }

  /** The length of the last slice of a non-empty upload: (n - 1) mod 30720. */
  lemma LastSliceLength(pdf: seq<Byte>)
    requires |pdf| > 0
    ensures |PlannedSlices(pdf)[NumSlices(|pdf|) - 1]| == (|pdf| - 1) % BYTE_SIZE_OF_PDF_SLICE
    ensures forall i :: 0 <= i < NumSlices(|pdf|) - 1 ==>
              |PlannedSlices(pdf)[i]| == BYTE_SIZE_OF_PDF_SLICE
  {
    UploadCallsShape(0, pdf);
    NumSlicesIsCeiling(|pdf|);
    var m := NumSlices(|pdf|);
    assert m - 1 == (|pdf| - 1) / BYTE_SIZE_OF_PDF_SLICE;
    assert forall i :: 0 <= i < m ==> UploadCalls(0, pdf)[i].data == PlannedSlices(pdf)[i];
  }

  //==========================================================================
  // The corrected plan
  //==========================================================================

  /** The size the last slice evidently should have: all that remains. */
  function CorrectedSliceSize(n: nat, start: int): int {
    if start + BYTE_SIZE_OF_PDF_SLICE < n then BYTE_SIZE_OF_PDF_SLICE else n - start
  }

  function CorrectedSlices(pdf: seq<Byte>): (ss: seq<seq<Byte>>)
    ensures |ss| == NumSlices(|pdf|)
  {
    seq(NumSlices(|pdf|), i requires 0 <= i < NumSlices(|pdf|) =>
      var start := i * BYTE_SIZE_OF_PDF_SLICE;
      assert start < |pdf| by { NumSlicesIsCeiling(|pdf|); }
      pdf[start .. start + CorrectedSliceSize(|pdf|, start)])
  }

  /** The corrected plan agrees with the written one on every slice but the last. */
  lemma CorrectedAgreesBeforeLast(pdf: seq<Byte>)
    ensures forall i :: 0 <= i < NumSlices(|pdf|) - 1 ==> CorrectedSlices(pdf)[i] == PlannedSlices(pdf)[i]
  {
    var m := NumSlices(|pdf|);
    NumSlicesIsCeiling(|pdf|);
    forall i | 0 <= i < m - 1
      ensures CorrectedSlices(pdf)[i] == PlannedSlices(pdf)[i]
    {
      assert (i + 1) * BYTE_SIZE_OF_PDF_SLICE <= (m - 1) * BYTE_SIZE_OF_PDF_SLICE;
    }
  }

  /** The last slice of each plan, as a range of the PDF. */
  lemma LastSlices(pdf: seq<Byte>)
    requires |pdf| > 0
    ensures var m := NumSlices(|pdf|); var start := (m - 1) * BYTE_SIZE_OF_PDF_SLICE;
            && start < |pdf|
            && CorrectedSlices(pdf)[m - 1] == pdf[start..]
            && PlannedSlices(pdf)[m - 1] == pdf[start .. |pdf| - 1]
  {
    NumSlicesIsCeiling(|pdf|);
  }

  /** With `n - start` as the last size the slices join to the whole PDF, and
      the last slice is the written one plus the byte the written one drops. */
  lemma CorrectedSlicesRoundTrip(pdf: seq<Byte>)
    ensures Concat(CorrectedSlices(pdf)) == pdf
    ensures |pdf| > 0 ==> CorrectedSlices(pdf)[NumSlices(|pdf|) - 1]
                          == PlannedSlices(pdf)[NumSlices(|pdf|) - 1] + [pdf[|pdf| - 1]]
  {
    var m := NumSlices(|pdf|);
    var cs, ps := CorrectedSlices(pdf), PlannedSlices(pdf);
    NumSlicesIsCeiling(|pdf|);
    if m > 0 {
      var start := (m - 1) * BYTE_SIZE_OF_PDF_SLICE;
      LastSlices(pdf);
      assert Concat(cs) == pdf by {
        assert cs[..m - 1] == ps[..m - 1] by {
          CorrectedAgreesBeforeLast(pdf);
        }
        calc {
          Concat(cs);
          Concat(cs[..m - 1]) + cs[m - 1];
          Concat(ps[..m - 1]) + pdf[start..];
          { PlannedPrefix(pdf, m - 1); }
          pdf[..start] + pdf[start..];
          pdf;
        }
      }
      assert pdf[start..] == pdf[start .. |pdf| - 1] + [pdf[|pdf| - 1]];
    }
  }

  //==========================================================================
  // Reading a PDF back
  //==========================================================================

  /** The debug line getPDFBytes prints for each slice:
      `data.substring(0, 15) + "..." + data.substring(data.length() - 16)`. */
  function Preview(data: string): Result<string, JavaException> {
    var head := Substring(data, 0, 15);
    if head.Failure? then Failure(head.error)
    else
      var tail := Substring(data, |data| - 16, |data|);
      if tail.Failure? then Failure(tail.error) else Success(head.value + "..." + tail.value)
  }

  /** The preview of a slice throws exactly when the slice has fewer than 8
      bytes (fewer than 16 hex digits). */
  lemma PreviewFailsOnShortSlice(bytes: seq<Byte>)
    ensures Preview(Hex(bytes)).Failure? <==> |bytes| < 8
    ensures Preview(Hex(bytes)).Failure? ==> Preview(Hex(bytes)).error == StringIndexOutOfBounds
  {
  }

  /** The debug line of one fetched slice: its hex text, previewed. */
  method PreviewSlice(bytes: seq<Byte>) returns (r: Result<string, JavaException>)
    ensures r == Preview(Hex(bytes))
    ensures r.Failure? <==> |bytes| < 8
    ensures r.Failure? ==> r.error == StringIndexOutOfBounds
  {
    var data := BytesToHex(bytes);
    r := Preview(data);
    PreviewFailsOnShortSlice(bytes);
  }

  /** The slices getPDFBytes fetches: indices 0 up to the reported count, read
      through intValue(), so a count past the int range wraps. */
  function FetchedSlices(log: seq<Transaction>, recordID: int): (ss: seq<seq<Byte>>)
    ensures forall i :: 0 <= i < |ss| ==> ss[i] == StoredSlice(log, recordID, i)
  {
    var numSlices := WrapInt32(SliceCount(log, recordID));
    seq(if numSlices < 0 then 0 else numSlices, i requires 0 <= i => StoredSlice(log, recordID, i))
  }

  predicate HasShortSlice(ss: seq<seq<Byte>>) {
    exists i :: 0 <= i < |ss| && |ss[i]| < 8
  }

  /** What getPDFBytes returns for a record: the fetched slices joined, or the
      exception the preview of a short slice throws. */
  function ReadBack(log: seq<Transaction>, recordID: int): Result<seq<Byte>, JavaException> {
    var ss := FetchedSlices(log, recordID);
    if HasShortSlice(ss) then Failure(StringIndexOutOfBounds) else Success(Concat(ss))
  }

  lemma DispatchedExtend(calls: seq<SliceCall>, k: nat)
    requires 0 < k <= |calls|
    ensures Dispatched(calls[..k]) == Dispatched(calls[..k - 1]) + [AddBytes(calls[k - 1])]
  {
  }

  /** A ledger with no slice of the record, extended by slices 0 .. k - 1 of it,
      reports k slices and holds each slice written. */
  lemma {:induction false} WrittenPrefix(log: seq<Transaction>, calls: seq<SliceCall>, recordID: int, k: nat)
    requires forall j :: 0 <= j < |log| ==> !WritesRecord(log[j], recordID)
    requires forall i :: 0 <= i < |calls| ==> calls[i].recordID == recordID && calls[i].index == i
    requires k <= |calls|
    ensures SliceCount(log + Dispatched(calls[..k]), recordID) == k
    ensures forall i :: 0 <= i < k ==> StoredSlice(log + Dispatched(calls[..k]), recordID, i) == calls[i].data
  {
    if k == 0 {
      assert Dispatched(calls[..0]) == [];
      assert log + Dispatched(calls[..0]) == log;
    } else {
      WrittenPrefix(log, calls, recordID, k - 1);
      var before := log + Dispatched(calls[..k - 1]);
      var c := calls[k - 1];
      DispatchedExtend(calls, k);
      assert log + Dispatched(calls[..k]) == before + [AddBytes(c)];
      SliceCountAfterWrite(before, c, recordID);
      forall i | 0 <= i < k
        ensures StoredSlice(before + [AddBytes(c)], recordID, i) == calls[i].data
      {
        StoredSliceAfterWrite(before, c, recordID, i);
      }
    }
  }

  /** After uploading a PDF for a record the ledger held no slice of, the slices
      fetched are exactly the slices uploaded. */
  lemma UploadedSlicesFetched(log: seq<Transaction>, recordID: int, pdf: seq<Byte>)
    requires forall j :: 0 <= j < |log| ==> !WritesRecord(log[j], recordID)
    requires |pdf| <= INT_MAX
    ensures FetchedSlices(log + Dispatched(UploadCalls(recordID, pdf)), recordID) == PlannedSlices(pdf)
  {
    var calls, m := UploadCalls(recordID, pdf), NumSlices(|pdf|);
    var after := log + Dispatched(calls);
    UploadCallsShape(recordID, pdf);
    WrittenPrefix(log, calls, recordID, |calls|);
    assert calls[..|calls|] == calls;
    NumSlicesAtMost(|pdf|);
    assert WrapInt32(SliceCount(after, recordID)) == m;
    var fetched := FetchedSlices(after, recordID);
    assert |fetched| == m;
    forall i | 0 <= i < m
      ensures fetched[i] == PlannedSlices(pdf)[i]
    {
      assert fetched[i] == StoredSlice(after, recordID, i) == calls[i].data;
    }
  }

  /** Uploading a PDF and reading it back: an empty PDF reads back empty; a
      PDF whose length n has (n - 1) mod 30720 below 8 (a 1-byte PDF, say)
      can never be read back, since its last slice is too short to preview;
      every other PDF reads back without its last byte. */
  lemma UploadThenReadBack(log: seq<Transaction>, recordID: int, pdf: seq<Byte>)
    requires forall j :: 0 <= j < |log| ==> !WritesRecord(log[j], recordID)
    requires |pdf| <= INT_MAX
    ensures var r := ReadBack(log + Dispatched(UploadCalls(recordID, pdf)), recordID);
            && (|pdf| == 0 ==> r == Success([]))
            && (|pdf| > 0 && (|pdf| - 1) % BYTE_SIZE_OF_PDF_SLICE < 8 ==> r == Failure(StringIndexOutOfBounds))
            && (|pdf| > 0 && (|pdf| - 1) % BYTE_SIZE_OF_PDF_SLICE >= 8 ==> r == Success(pdf[..|pdf| - 1]))
  {
    var ss := PlannedSlices(pdf);
    UploadedSlicesFetched(log, recordID, pdf);
    NumSlicesIsCeiling(|pdf|);
    if |pdf| > 0 {
      var m := NumSlices(|pdf|);
      LastSliceLength(pdf);
      UploadLosesLastByte(pdf);
      if (|pdf| - 1) % BYTE_SIZE_OF_PDF_SLICE < 8 {
        assert |ss[m - 1]| < 8;
      } else {
        assert !HasShortSlice(ss);
      }
    }
  }

  lemma ConcatExtend(ss: seq<seq<Byte>>, k: nat)
    requires k < |ss|
    ensures Concat(ss[..k + 1]) == Concat(ss[..k]) + ss[k]
  {
    assert ss[..k + 1][..k] == ss[..k];
  }

  /** Joining one more slice adds its length. */
  lemma ConcatAppendLength(ss: seq<seq<Byte>>, x: seq<Byte>)
    ensures |Concat(ss + [x])| == |Concat(ss)| + |x|
  {
    assert (ss + [x])[..|ss|] == ss;
  }

  lemma PrefixAppend(ss: seq<seq<Byte>>, i: nat)
    requires i < |ss|
    ensures ss[..i + 1] == ss[..i] + [ss[i]]
  {
  }

  /** Joining a prefix of the slices gives no more bytes than joining them all. */
  lemma {:induction false} ConcatPrefixLength(ss: seq<seq<Byte>>, k: nat)
    requires k <= |ss|
    ensures |Concat(ss[..k])| <= |Concat(ss)|
    decreases |ss| - k
  {
    if k < |ss| {
      ConcatExtend(ss, k);
      ConcatPrefixLength(ss, k + 1);
    } else {
      assert ss[..k] == ss;
    }
  }

  /** The copy loop of getPDFBytes: an array of the total length, filled with
      one System.arraycopy per slice at the running position. */
  method CopySlices(bytes: seq<seq<Byte>>, totalLength: nat) returns (result: array<Byte>)
    requires totalLength == |Concat(bytes)|
    ensures fresh(result) && result[..] == Concat(bytes)
  {
    result := new Byte[totalLength];
    var currentPosition := 0;
    for k := 0 to |bytes|
      invariant currentPosition == |Concat(bytes[..k])| <= totalLength
      invariant result[..currentPosition] == Concat(bytes[..k])
    {
      var slice := bytes[k];
      ConcatExtend(bytes, k);
      ConcatPrefixLength(bytes, k + 1);
      ArrayCopy(slice, 0, result, currentPosition, |slice|);
      assert result[..currentPosition + |slice|] == result[..currentPosition] + slice;
      currentPosition := currentPosition + |slice|;
    }
    assert bytes[..|bytes|] == bytes;
    assert result[..] == result[..currentPosition];
  }

  /** One more slice adds its requests: one per null answer, and the last. */
  lemma RequestsExtend(calls: seq<SliceCall>, k: nat, nulls: nat -> nat)
    requires 0 < k <= |calls|
    ensures Requests(calls[..k], nulls)
            == Requests(calls[..k - 1], nulls) + Repeat(calls[k - 1], nulls(k - 1) + 1)
  {
    assert calls[..k][..k - 1] == calls[..k - 1];
  }

  /** When the wrapper never answers null, every slice is requested exactly once. */
  lemma {:induction false} RequestsWithoutNulls(calls: seq<SliceCall>, nulls: nat -> nat)
    requires forall i :: 0 <= i < |calls| ==> nulls(i) == 0
    ensures Requests(calls, nulls) == calls
  {
    if calls != [] {
      RequestsWithoutNulls(calls[..|calls| - 1], nulls);
      assert Repeat(calls[|calls| - 1], 1) == [calls[|calls| - 1]];
      assert calls[..|calls| - 1] + [calls[|calls| - 1]] == calls;
    }
  }

  /** Retries ask only for slices of the upload, and every slice is asked for. */
  lemma {:induction false} RequestsMembership(calls: seq<SliceCall>, nulls: nat -> nat)
    ensures forall c :: c in Requests(calls, nulls) <==> c in calls
  {
    if calls != [] {
      var m := |calls| - 1;
      RequestsMembership(calls[..m], nulls);
      assert calls == calls[..m] + [calls[m]];
      assert Repeat(calls[m], nulls(m) + 1)[0] == calls[m];
      forall c
        ensures c in Requests(calls, nulls) <==> c in calls
      {
        assert c in Repeat(calls[m], nulls(m) + 1) <==> c == calls[m];
      }
    }
  }

  /** Every request beyond one per slice is a retry after a null answer: the
      request log is as long as the slices plus the null answers. */
  lemma {:induction false} RequestsLength(calls: seq<SliceCall>, nulls: nat -> nat)
    ensures |Requests(calls, nulls)| == |calls| + NullCount(|calls|, nulls)
  {
    if calls != [] {
      RequestsLength(calls[..|calls| - 1], nulls);
    }
  }

  //==========================================================================
  // Query post-processing
  //==========================================================================

  /** The certificates of a parsed response, as a frame. */
  function Objects(parsed: Option<seq<Certificate>>): set<Certificate> {
    if parsed.Some? then set c | c in parsed.value else {}
  }

  /** What queryAll, queryAny and getAllCertificates do to the parsed response:
      out is the response with duplicates removed, each survivor's end date is
      multiplied by 1000 once and nothing else of it changes, and the certificates
      dropped as duplicates are left untouched. */
  twostate predicate PostProcessed(parsed: seq<Certificate>, new out: seq<Certificate>)
    reads set c | c in parsed
  {
    && out == FirstOccurrences(parsed, old(FieldsOf(parsed)))
    && (forall c :: c in parsed && c in out ==> Converted(c))
    && (forall c :: c in parsed && c !in out ==> unchanged(c))
  }

  /** c's end date went from seconds to milliseconds and nothing else of it changed. */
  twostate predicate Converted(c: Certificate)
    reads c
  {
    && c.HashedFields() == old(c.HashedFields()).(endDate := old(c.endDate) * 1000)
    && c.email == old(c.email) && c.pdf == old(c.pdf)
  }

  /** Every survivor of duplicate removal is an element of the input. */
  lemma SurvivorsAreInputs(s: seq<Certificate>)
    ensures forall c :: c in FirstOccurrences(s, FieldsOf(s)) ==> c in s
  {
    FirstOccurrencesAt(s, FieldsOf(s));
  }

  /** The for-each over the deduplicated list that turns each end date from
      seconds into milliseconds. The list holds no object twice, so each is
      converted exactly once. */
  method ConvertEndDates(list: ArrayList<Certificate>)
    requires forall i, j :: 0 <= i < j < |list.items| ==> list.items[i] != list.items[j]
    modifies set c | c in list.items
    ensures forall c :: c in list.items ==> Converted(c)
  {
    ghost var d := list.items;
    for k := 0 to |list.items|
      invariant forall j :: 0 <= j < k ==> Converted(d[j])
      invariant forall j :: k <= j < |d| ==> unchanged(d[j])
    {
      var certificate := list.items[k];
      label Before:
      certificate.SetEndDate(certificate.endDate * 1000);
      forall j | 0 <= j < k
        ensures Converted(d[j])
      {
        assert unchanged@Before(d[j]);
      }
    }
    forall c | c in d
      ensures Converted(c)
    {
      var j :| 0 <= j < |d| && d[j] == c;
    }
  }

  /** Duplicate removal followed by the conversion of the survivors' end dates.
      The parsed list is a fresh ArrayList, as the JSON parser builds one. */
  method DedupAndConvert(parsed: seq<Certificate>) returns (certificates: ArrayList<Certificate>)
    modifies set c | c in parsed
    ensures fresh(certificates)
    ensures PostProcessed(parsed, certificates.items)
  {
    DedupCertificatesDistinct(parsed);
    SurvivorsAreInputs(parsed);
    var list := new ArrayList(parsed);
    certificates := RemoveDuplicates(list);
    ghost var d := certificates.items;
    ConvertEndDates(certificates);
  }

  //==========================================================================
  // The client
  //==========================================================================

  class CertificateDBSC {
    const contract: Contract

    constructor (contract: Contract)
      ensures this.contract == contract
    {
      this.contract := contract;
    }

    /** uploadPDFSliceAsync: asks for the call until the wrapper builds one, then
        dispatches it once. The wrapper answers the first `nulls` requests with
        null; a wrapper that never stops doing so is not modelled. */
    method UploadPDFSliceAsync(recordID: int, index: int, data: seq<Byte>, nulls: nat)
      modifies contract
      ensures contract.requested
              == old(contract.requested) + Repeat(SliceCall(recordID, index, data), nulls + 1)
      ensures contract.sent == old(contract.sent) + [AddBytes(SliceCall(recordID, index, data))]
      ensures contract.queries == old(contract.queries)
    {
      var request := SliceCall(recordID, index, data);
      var attempts := 0;
      var call := contract.AddCertificateBytes(request, attempts < nulls);
      while call == None
        invariant attempts <= nulls
        invariant contract.requested == old(contract.requested) + Repeat(request, attempts + 1)
        invariant call == None <==> attempts < nulls
        invariant call != None ==> call == Some(request)
        invariant contract.sent == old(contract.sent) && contract.queries == old(contract.queries)
        decreases nulls - attempts
      {
        // Thread.sleep(100)
        attempts := attempts + 1;
        call := contract.AddCertificateBytes(request, attempts < nulls);
        assert Repeat(request, attempts + 1) == Repeat(request, attempts) + [request];
      }
      contract.SendAsync(AddBytes(call.value));
    }

    /** The slice buffer of uploadFullPDF: a new array of the slice's size, filled
        by System.arraycopy from the PDF. */
    static method CopyRange(pdf: seq<Byte>, start: nat, size: nat) returns (temp: array<Byte>)
      requires start + size <= |pdf|
      ensures fresh(temp) && temp[..] == pdf[start .. start + size]
    {
      temp := new Byte[size];
      ArrayCopy(pdf, start, temp, 0, size);
      assert temp[..] == [] + pdf[start .. start + size] + [];
    }

    /** One round of uploadFullPDF's loop: slice i, which starts at
        currentRangeStart, is copied out of the PDF and uploaded. */
    method UploadSlice(recordID: int, pdf: seq<Byte>, i: nat, currentRangeStart: int, nulls: nat)
      requires i < NumSlices(|pdf|) && currentRangeStart == i * BYTE_SIZE_OF_PDF_SLICE
      modifies contract
      ensures contract.sent == old(contract.sent) + [AddBytes(UploadCalls(recordID, pdf)[i])]
      ensures contract.requested
              == old(contract.requested) + Repeat(UploadCalls(recordID, pdf)[i], nulls + 1)
      ensures contract.queries == old(contract.queries)
    {
      NumSlicesIsCeiling(|pdf|);
      assert currentRangeStart < |pdf| by {
        assert i * BYTE_SIZE_OF_PDF_SLICE <= (NumSlices(|pdf|) - 1) * BYTE_SIZE_OF_PDF_SLICE;
      }
      var size := if currentRangeStart + BYTE_SIZE_OF_PDF_SLICE < |pdf| then BYTE_SIZE_OF_PDF_SLICE
                  else |pdf| - currentRangeStart - 1;
      var temp := CopyRange(pdf, currentRangeStart, size);
      PlannedCall(recordID, pdf, i);
      UploadPDFSliceAsync(recordID, i, temp[..], nulls);
    }

    /** uploadFullPDF: cuts the PDF into NumSlices slices and uploads them in
        index order; the wrapper answers nulls(i) requests for slice i with null. */
    method UploadFullPDF(recordID: int, pdf: seq<Byte>, nulls: nat -> nat)
      modifies contract
      ensures contract.sent == old(contract.sent) + Dispatched(UploadCalls(recordID, pdf))
      ensures contract.requested == old(contract.requested) + Requests(UploadCalls(recordID, pdf), nulls)
      ensures contract.queries == old(contract.queries)
    {
      ghost var calls := UploadCalls(recordID, pdf);
      var numSlices := NumSlices(|pdf|);
      NumSlicesIsCeiling(|pdf|);
      var currentRangeStart := 0;
      for i := 0 to numSlices
        invariant currentRangeStart == i * BYTE_SIZE_OF_PDF_SLICE
        invariant contract.sent == old(contract.sent) + Dispatched(calls[..i])
        invariant contract.requested == old(contract.requested) + Requests(calls[..i], nulls)
        invariant contract.queries == old(contract.queries)
      {
        UploadSlice(recordID, pdf, i, currentRangeStart, nulls(i));
        DispatchedExtend(calls, i + 1);
        RequestsExtend(calls, i + 1, nulls);
        currentRangeStart := currentRangeStart + BYTE_SIZE_OF_PDF_SLICE;
      }
      assert calls[..numSlices] == calls;
    }

    /** getPDFBytes: fetches slices 0 .. count - 1 in order, previews each, and
        copies them one after another into an array of their total length. */
    method GetPDFBytes(recordID: int) returns (r: Result<seq<Byte>, JavaException>)
      ensures r == ReadBack(contract.sent, recordID)
    {
      var numSlices := WrapInt32(contract.CertificateBytesLength(recordID)); // .intValue()
      ghost var fetched := FetchedSlices(contract.sent, recordID);
      var bytes: seq<seq<Byte>> := [];
      var totalLength := 0;
      var i := 0;
      while i < numSlices
        invariant 0 <= i <= |fetched| && |fetched| == if numSlices < 0 then 0 else numSlices
        invariant bytes == fetched[..i]
        invariant totalLength == |Concat(bytes)|
        invariant !HasShortSlice(bytes)
      {
        var temp := contract.CertificateBytes(recordID, i);
        assert temp == fetched[i];
        totalLength := totalLength + |temp|;
        var preview := PreviewSlice(temp);
        if preview.Failure? {
          assert HasShortSlice(fetched) by {
            assert |fetched[i]| < 8;
          }
          return Failure(preview.error);
        }
        ConcatAppendLength(bytes, temp);
        PrefixAppend(fetched, i);
        bytes := bytes + [temp];
        i := i + 1;
      }
      assert bytes == fetched;
      assert !HasShortSlice(fetched);
      var result := CopySlices(bytes, totalLength);
      r := Success(result[..]);
    }

    /** addNewCertificate: dispatches the record's metadata, then uploads its PDF.
        A null type or record number throws before anything is sent; a null PDF
        throws after the metadata went out. */
    method AddNewCertificate(email: string, researcherID: int, firstName: string, lastName: string,
                             firstNameKey: int, lastNameKey: int, certificateType: Option<int>,
                             recordID: Option<int>, courseName: string, endDate: int,
                             pdf: Option<seq<Byte>>, nulls: nat -> nat) returns (r: Result<(), JavaException>)
      modifies contract
      ensures contract.queries == old(contract.queries)
      ensures certificateType.None? || recordID.None? ==>
                r == Failure(NullPointer) && contract.sent == old(contract.sent)
                && contract.requested == old(contract.requested)
      ensures certificateType.Some? && recordID.Some? ==>
                var record := AddCertificate(NewCertificate(email, researcherID, firstName, lastName,
                                firstNameKey, lastNameKey, certificateType.value, recordID.value,
                                courseName, endDate));
                && (pdf.None? ==>
                      r == Failure(NullPointer) && contract.sent == old(contract.sent) + [record]
                      && contract.requested == old(contract.requested))
                && (pdf.Some? ==>
                      r == Success(())
                      && contract.sent == old(contract.sent) + [record]
                                          + Dispatched(UploadCalls(recordID.value, pdf.value))
                      && contract.requested == old(contract.requested)
                                               + Requests(UploadCalls(recordID.value, pdf.value), nulls))
    {
      if certificateType.None? || recordID.None? {
        return Failure(NullPointer);             // BigInteger.valueOf(null)
      }
      contract.SendAsync(AddCertificate(NewCertificate(email, researcherID, firstName, lastName,
        firstNameKey, lastNameKey, certificateType.value, recordID.value, courseName, endDate)));
      if pdf.None? {
        return Failure(NullPointer);             // pdf.length in uploadFullPDF
      }
      UploadFullPDF(recordID.value, pdf.value, nulls);
      r := Success(());
    }

    /** The shared body of queryAll, queryAny and getAllCertificates: the query
        is sent, its JSON answer parsed (None when send or parsing throws), and
        the list deduplicated and converted to milliseconds. */
    method SendQuery(q: QueryCall, response: Option<seq<Certificate>>)
      returns (r: Result<ArrayList<Certificate>, JavaException>)
      modifies contract, Objects(response)
      ensures contract.queries == old(contract.queries) + [q]
      ensures contract.sent == old(contract.sent) && contract.requested == old(contract.requested)
      ensures response.None? ==> r == Failure(ContractFailure)
      ensures response.Some? ==> r.Success? && fresh(r.value) && PostProcessed(response.value, r.value.items)
    {
      contract.Send(q);
      if response.None? {
        return Failure(ContractFailure);
      }
      var certificates := DedupAndConvert(response.value);
      r := Success(certificates);
    }

    /** queryAll */
    method QueryAll(firstNameKey: int, lastNameKey: int, researcherID: int, low: int, high: int,
                    response: Option<seq<Certificate>>) returns (r: Result<ArrayList<Certificate>, JavaException>)
      modifies contract, Objects(response)
      ensures contract.queries
              == old(contract.queries) + [QueryCall.QueryAll(firstNameKey, lastNameKey, researcherID, low, high)]
      ensures contract.sent == old(contract.sent) && contract.requested == old(contract.requested)
      ensures response.None? ==> r == Failure(ContractFailure)
      ensures response.Some? ==> r.Success? && fresh(r.value) && PostProcessed(response.value, r.value.items)
    {
      r := SendQuery(QueryCall.QueryAll(firstNameKey, lastNameKey, researcherID, low, high), response);
    }

    /** queryAny */
    method QueryAny(firstNameKey: int, lastNameKey: int, researcherID: int, low: int, high: int,
                    response: Option<seq<Certificate>>) returns (r: Result<ArrayList<Certificate>, JavaException>)
      modifies contract, Objects(response)
      ensures contract.queries
              == old(contract.queries) + [QueryCall.QueryAny(firstNameKey, lastNameKey, researcherID, low, high)]
      ensures contract.sent == old(contract.sent) && contract.requested == old(contract.requested)
      ensures response.None? ==> r == Failure(ContractFailure)
      ensures response.Some? ==> r.Success? && fresh(r.value) && PostProcessed(response.value, r.value.items)
    {
      r := SendQuery(QueryCall.QueryAny(firstNameKey, lastNameKey, researcherID, low, high), response);
    }

    /** getAllCertificates */
    method GetAllCertificates(response: Option<seq<Certificate>>)
      returns (r: Result<ArrayList<Certificate>, JavaException>)
      modifies contract, Objects(response)
      ensures contract.queries == old(contract.queries) + [QueryCall.GetAllCertificates]
      ensures contract.sent == old(contract.sent) && contract.requested == old(contract.requested)
      ensures response.None? ==> r == Failure(ContractFailure)
      ensures response.Some? ==> r.Success? && fresh(r.value) && PostProcessed(response.value, r.value.items)
    {
      r := SendQuery(QueryCall.GetAllCertificates, response);
    }

    /** hasValidCertificate: a null researcher number throws before anything is
        sent. */
    method HasValidCertificate(researcherID: Option<int>, response: Option<bool>)
      returns (r: Result<bool, JavaException>)
      modifies contract
      ensures researcherID.None? ==> r == Failure(NullPointer) && contract.queries == old(contract.queries)
      ensures researcherID.Some? ==>
                contract.queries == old(contract.queries) + [QueryCall.HasValidCertificate(researcherID.value)]
                && r == (if response.Some? then Success(response.value) else Failure(ContractFailure))
      ensures contract.sent == old(contract.sent) && contract.requested == old(contract.requested)
    {
      if researcherID.None? {
        return Failure(NullPointer);             // BigInteger.valueOf(null)
      }
      contract.Send(QueryCall.HasValidCertificate(researcherID.value));
      r := if response.Some? then Success(response.value) else Failure(ContractFailure);
    }

    /** getCertificateCount: the contract's count through intValue(). */
    method GetCertificateCount(response: Option<int>) returns (r: Result<Int32, JavaException>)
      modifies contract
      ensures contract.queries == old(contract.queries) + [QueryCall.GetCertificateCount]
      ensures contract.sent == old(contract.sent) && contract.requested == old(contract.requested)
      ensures response.None? ==> r == Failure(ContractFailure)
      ensures response.Some? ==> r.Success? && (response.value - r.value) % 0x1_0000_0000 == 0
      ensures response.Some? && INT_MIN <= response.value <= INT_MAX ==> r == Success(response.value)
    {
      contract.Send(QueryCall.GetCertificateCount);
      r := if response.Some? then Success(WrapInt32(response.value)) else Failure(ContractFailure);
    }
  }
}
