# Certificate chain client, modelled in Dafny

This project models the Java client of a blockchain certificate store. A
researcher's training certificate (CITI or HIPAA) is kept on an Ethereum
contract, CertificateDB. That contract accepts only small payloads and indexes
records by number only. The client makes it behave like a searchable
certificate store:

- **Slice codec** (`CertificateDBSC`). `uploadFullPDF` cuts a PDF into slices
  of 30 KiB (30720 bytes). `uploadPDFSliceAsync` sends each slice as one
  `addCertificateBytes` transaction, asking again while the contract wrapper
  hands back a null call. `getPDFBytes` reads the slice count, fetches the
  slices in order, prints a hex preview of each, and joins them. Query results
  are deduplicated, and each survivor's end date is converted from seconds to
  milliseconds.
- **Key minting and web queries** (`WebCertificateDB`). Two maps, kept inverse
  to each other, give every email and name a random numeric key in
  [10000, 65535]. Query strings resolve to their key, or to 0 when empty or
  unknown. Dates become Unix seconds. `queryAllFromWeb` filters the contract's
  answer again on the client, removing elements in place.
- **Utilities** (`CertificateUtils`): first-occurrence duplicate removal in
  place, `bytesToHex`, and the download file name.
- **Records** (`CertificateBean`, `SubmissionBean`): the type code mapping, the
  seconds-to-milliseconds constructor, the setters, and an `equals` that
  ignores email and PDF.
- **Search dispatch** (`CertificatesController`). A search form goes to one of
  three routes: the whole database, a date-only filter applied in Java, or a
  match-all query with names upper-cased and email lower-cased.
  `submit_attempt` stores a submission under the same normalisation.
- **Tester arithmetic** (`WebCertificateDBTester`): `msTimeFormat`,
  `getRandomNumberInRange`, and the guard of `testAddCertificates`.

Classes whose fields the Java code updates are Dafny classes. Their methods
carry `modifies` clauses and state the whole new state. Each loop of the
source is a `while` or `for` loop with invariants, proved against a
specification function:

- `FirstOccurrences` for duplicate removal;
- `Hex` for `bytesToHex`;
- `UploadCalls`, `Dispatched` and `Requests` for the upload;
- `ReadBack` and `Concat` for the read-back;
- `Survivors` for the in-place filters.

The properties promised about those functions are proved as lemmas.

**The contract is abstract.** Its Solidity code is not part of this model.
`CertificateDB.Contract` records, in order:

- every transaction dispatched with `sendAsync`;
- every `addCertificateBytes` request;
- every query sent.

What the contract reports about PDF slices is a function of the dispatched
transactions: the bytes of the last write to a slot, and one more than the
highest index written. Query answers, already parsed from JSON, are
parameters (`None` when `send()` or the parser throws). So are the answers of
`hasValidCertificate` and `getCertificateCount`. Date parsing
(`SimpleDateFormat`) is a parameter too, as a partial function from text to
milliseconds.

**The upload loses a byte.** At `CertificateDBSC.java:111`, the last slice
gets `length - start - 1` bytes. The model keeps the code as written:

- `UploadLosesLastByte` proves that every non-empty upload loses the PDF's
  last byte, exact multiples of 30720 included.
- `UploadThenReadBack` proves what reading back then yields. A PDF whose
  length n has (n - 1) mod 30720 below 8 can never be read back, because the
  hex preview of its last slice throws. A 1-byte PDF is one such case.
- `CorrectedSlices` sits beside the written plan, using `length - start` as
  the last size. `CorrectedSlicesRoundTrip` proves that it joins back to the
  whole PDF.

## Model

| member | source | states |
|---|---|---|
| CertificateBean.Certificate.constructor | src/main/java/edu/ucsd/dbmi/certificates/beans/Certificate.java:33-53 | type code 0 gives CITI and 1 gives HIPAA (both iff, so any other code leaves the type null); the end date in seconds is stored times 1000; email is unset and every other argument is stored as given |
| CertificateBean.Certificate.SetEmail | src/main/java/edu/ucsd/dbmi/certificates/beans/Certificate.java:59-61 | sets the email; the nine compared fields and the PDF are unchanged |
| CertificateBean.Certificate.SetEndDate | src/main/java/edu/ucsd/dbmi/certificates/beans/Certificate.java:99-101 | the compared fields change only in the end date; email and PDF are unchanged |
| CertificateBean.Certificate.SetPdf | src/main/java/edu/ucsd/dbmi/certificates/beans/Certificate.java:107-109 | sets the PDF; the compared fields and the email are unchanged |
| CertificateBean.EqualsIsEquivalence | src/main/java/edu/ucsd/dbmi/certificates/beans/Certificate.java:111-125 | equals is reflexive, symmetric and transitive, and false against null |
| CertificateBean.EqualsIffSameHashedFields | src/main/java/edu/ucsd/dbmi/certificates/beans/Certificate.java:111-130 | equals holds exactly when the nine fields passed to Objects.hash agree, so equal certificates hash alike and email and PDF are ignored |
| CertificateBean.ToStringRespectsEquals | src/main/java/edu/ucsd/dbmi/certificates/beans/Certificate.java:132-135 | equal certificates print the same text |
| CertificateBean.ToStringDeterminesRecordID | src/main/java/edu/ucsd/dbmi/certificates/beans/Certificate.java:132-135 | the printed text determines the record number: two certificates that print alike have the same recordID |
| SubmissionBean.CertificateSubmission.constructor | src/main/java/edu/ucsd/dbmi/certificates/beans/CertificateSubmission.java:30-39 | every argument is stored unchanged and pdfBytes is unset |
| SubmissionBean.CertificateSubmission.GetCertificateTypeInt | src/main/java/edu/ucsd/dbmi/certificates/beans/CertificateSubmission.java:69-76 | the code lies in [-1, 1] and is -1 exactly when the type is unset |
| SubmissionBean.CertificateSubmission.SetEmail | src/main/java/edu/ucsd/dbmi/certificates/beans/CertificateSubmission.java:45-47 | changes the email field and no other |
| SubmissionBean.CertificateSubmission.SetFirstName | src/main/java/edu/ucsd/dbmi/certificates/beans/CertificateSubmission.java:53-55 | changes the first name and no other field |
| SubmissionBean.CertificateSubmission.SetLastName | src/main/java/edu/ucsd/dbmi/certificates/beans/CertificateSubmission.java:61-63 | changes the last name and no other field |
| SubmissionBean.CertificateSubmission.SetCertificateType | src/main/java/edu/ucsd/dbmi/certificates/beans/CertificateSubmission.java:78-80 | changes the type and no other field |
| SubmissionBean.CertificateSubmission.SetRecordID | src/main/java/edu/ucsd/dbmi/certificates/beans/CertificateSubmission.java:86-88 | changes the record number and no other field |
| SubmissionBean.CertificateSubmission.SetCourseName | src/main/java/edu/ucsd/dbmi/certificates/beans/CertificateSubmission.java:94-96 | changes the course name and no other field |
| SubmissionBean.CertificateSubmission.SetEndDate | src/main/java/edu/ucsd/dbmi/certificates/beans/CertificateSubmission.java:102-104 | changes the end date and no other field |
| SubmissionBean.CertificateSubmission.SetPdfBytes | src/main/java/edu/ucsd/dbmi/certificates/beans/CertificateSubmission.java:118-120 | changes the PDF bytes and no other field |
| SubmissionBean.TypeCodeRoundTrip | src/main/java/edu/ucsd/dbmi/certificates/beans/CertificateSubmission.java:69-76 | CITI, HIPAA and unset each survive the trip through the integer code and Certificate's constructor mapping, in both directions |
| CertificateUtils.FirstOccurrences | src/main/java/edu/ucsd/dbmi/certificates/utils/CertificateUtils.java:148-163 | duplicate removal never lengthens the list |
| CertificateUtils.FirstOccurrencesAt | src/main/java/edu/ucsd/dbmi/certificates/utils/CertificateUtils.java:150-159 | the survivors are the input read at the kept positions |
| CertificateUtils.KeptIndicesAscend | src/main/java/edu/ucsd/dbmi/certificates/utils/CertificateUtils.java:150-159 | the kept positions ascend strictly, so survivors keep their input order |
| CertificateUtils.KeptIndicesAreFirstOccurrences | src/main/java/edu/ucsd/dbmi/certificates/utils/CertificateUtils.java:150-153 | a position is kept exactly when its key does not occur earlier: each survivor is the first of its class |
| CertificateUtils.DedupHasNoDuplicates | src/main/java/edu/ucsd/dbmi/certificates/utils/CertificateUtils.java:150-159 | no two survivors are equal |
| CertificateUtils.DedupCoversInput | src/main/java/edu/ucsd/dbmi/certificates/utils/CertificateUtils.java:150-159 | an element is a survivor exactly when it occurs in the input |
| CertificateUtils.DistinctKeysKeepAll | src/main/java/edu/ucsd/dbmi/certificates/utils/CertificateUtils.java:148-163 | a list without duplicates is left as it is |
| CertificateUtils.DedupIdempotent | src/main/java/edu/ucsd/dbmi/certificates/utils/CertificateUtils.java:148-163 | removing duplicates a second time changes nothing |
| CertificateUtils.DedupCertificatesDistinct | src/main/java/edu/ucsd/dbmi/certificates/utils/CertificateUtils.java:148-163 | surviving certificates are pairwise unequal under equals, and pairwise different objects |
| CertificateUtils.DedupCertificatesIdempotent | src/main/java/edu/ucsd/dbmi/certificates/utils/CertificateUtils.java:148-163 | a deduplicated certificate list stays the same when deduplicated again |
| CertificateUtils.FirstOccurrencesExtend | src/main/java/edu/ucsd/dbmi/certificates/utils/CertificateUtils.java:150-153 | adding one more element to the LinkedHashSet appends it exactly when no equal element is present |
| CertificateUtils.RemoveDuplicates | src/main/java/edu/ucsd/dbmi/certificates/utils/CertificateUtils.java:148-163 | the list is refilled, in place, with the first occurrence of each equals-class in first-seen order; the same list object is returned |
| CertificateUtils.HighNibble | src/main/java/edu/ucsd/dbmi/certificates/utils/CertificateUtils.java:170-171 | the unsigned high nibble is below 16, a valid HEX_ARRAY index |
| CertificateUtils.LowNibble | src/main/java/edu/ucsd/dbmi/certificates/utils/CertificateUtils.java:170-172 | the low nibble is below 16, a valid HEX_ARRAY index |
| CertificateUtils.Hex | src/main/java/edu/ucsd/dbmi/certificates/utils/CertificateUtils.java:167-175 | the hex text is twice as long as the input and holds only characters of "0123456789ABCDEF" |
| CertificateUtils.BytesToHex | src/main/java/edu/ucsd/dbmi/certificates/utils/CertificateUtils.java:167-175 | the char-array loop produces exactly the hex text of the bytes |
| CertificateUtils.HexValueOfDigit | src/main/java/edu/ucsd/dbmi/certificates/utils/CertificateUtils.java:26 | each HEX_ARRAY digit reads back as its index |
| CertificateUtils.HexDigitsOfByte | src/main/java/edu/ucsd/dbmi/certificates/utils/CertificateUtils.java:169-173 | characters 2j and 2j + 1 are the digits of the high and low nibble of byte j |
| CertificateUtils.HexPairRoundTrip | src/main/java/edu/ucsd/dbmi/certificates/utils/CertificateUtils.java:170-172 | the two digits written for a byte read back as that byte, negative bytes included |
| CertificateUtils.HexRoundTrip | src/main/java/edu/ucsd/dbmi/certificates/utils/CertificateUtils.java:167-175 | decoding the hex text gives back the bytes, so bytesToHex is injective |
| CertificateUtils.FileNameInjective | src/main/java/edu/ucsd/dbmi/certificates/utils/CertificateUtils.java:179-181 | when names hold no underscore, the file name determines the first name, last name, type and record number |
| CertificateDB.StoredSlice | src/main/java/edu/ucsd/dbmi/certificates/contract/CertificateDBSC.java:442 | a slot never written reads as an empty byte array |
| CertificateDB.SliceCount | src/main/java/edu/ucsd/dbmi/certificates/contract/CertificateDBSC.java:429 | the count exceeds every index written for the record, and count - 1 is an index written |
| CertificateDB.Contract.AddCertificateBytes | src/main/java/edu/ucsd/dbmi/certificates/contract/CertificateDBSC.java:144 | every request is recorded, null answer or not; the answer is null exactly when the wrapper hands back null this time, otherwise the call for the request |
| CertificateDB.Contract.SendAsync | src/main/java/edu/ucsd/dbmi/certificates/contract/CertificateDBSC.java:152 | the transaction is appended to the dispatch log and nothing else changes |
| CertificateDB.Contract.Send | src/main/java/edu/ucsd/dbmi/certificates/contract/CertificateDBSC.java:327-333 | the query is appended to the query log and nothing else changes |
| CertificateDB.Contract.CertificateBytesLength | src/main/java/edu/ucsd/dbmi/certificates/contract/CertificateDBSC.java:429 | a record with no slice written has count 0 |
| CertificateDB.Contract.CertificateBytes | src/main/java/edu/ucsd/dbmi/certificates/contract/CertificateDBSC.java:442 | a slot never written reads as empty |
| CertificateDB.StoredSliceAfterWrite | src/main/java/edu/ucsd/dbmi/certificates/contract/CertificateDBSC.java:152 | writing a slice makes it the stored one, and other slots keep their bytes |
| CertificateDB.SliceCountAfterWrite | src/main/java/edu/ucsd/dbmi/certificates/contract/CertificateDBSC.java:152 | writing a slice raises its record's count to cover its index, and other records' counts do not change |
| CertificateDBSC.NumSlicesIsCeiling | src/main/java/edu/ucsd/dbmi/certificates/contract/CertificateDBSC.java:96 | the slice count is the ceiling of length / 30720, and 0 exactly for an empty PDF |
| CertificateDBSC.NumSlicesAtMost | src/main/java/edu/ucsd/dbmi/certificates/contract/CertificateDBSC.java:96 | there are never more slices than bytes |
| CertificateDBSC.PlannedSlices | src/main/java/edu/ucsd/dbmi/certificates/contract/CertificateDBSC.java:106-130 | the loop plans one slice per round, ceiling(length / 30720) in all |
| CertificateDBSC.UploadCalls | src/main/java/edu/ucsd/dbmi/certificates/contract/CertificateDBSC.java:106-130 | the loop issues one request per planned slice |
| CertificateDBSC.UploadCallsShape | src/main/java/edu/ucsd/dbmi/certificates/contract/CertificateDBSC.java:106-128 | request i carries the record and index i; every slice but the last is exactly bytes [30720i, 30720(i+1)); the last slice runs from its start to the second-to-last byte |
| CertificateDBSC.PlannedPrefix | src/main/java/edu/ucsd/dbmi/certificates/contract/CertificateDBSC.java:111-128 | the slices before slice k join to the first 30720k bytes |
| CertificateDBSC.UploadLosesLastByte | src/main/java/edu/ucsd/dbmi/certificates/contract/CertificateDBSC.java:111 | the uploaded slices of a non-empty PDF join to the PDF without its last byte |
| CertificateDBSC.LastSliceLength | src/main/java/edu/ucsd/dbmi/certificates/contract/CertificateDBSC.java:111 | the last slice has (length - 1) mod 30720 bytes and every other slice 30720 |
| CertificateDBSC.CorrectedAgreesBeforeLast | src/main/java/edu/ucsd/dbmi/certificates/contract/CertificateDBSC.java:111 | with length - start as the last size, every slice but the last is unchanged |
| CertificateDBSC.CorrectedSlicesRoundTrip | src/main/java/edu/ucsd/dbmi/certificates/contract/CertificateDBSC.java:111 | with length - start as the last size, the slices join to the whole PDF, and the last slice regains the dropped byte |
| CertificateDBSC.PreviewFailsOnShortSlice | src/main/java/edu/ucsd/dbmi/certificates/contract/CertificateDBSC.java:448-449 | the preview of a slice's hex text throws StringIndexOutOfBounds exactly when the slice has fewer than 8 bytes |
| CertificateDBSC.PreviewSlice | src/main/java/edu/ucsd/dbmi/certificates/contract/CertificateDBSC.java:448-449 | the debug preview of one fetched slice fails exactly for a slice under 8 bytes |
| CertificateDBSC.FetchedSlices | src/main/java/edu/ucsd/dbmi/certificates/contract/CertificateDBSC.java:429-442 | slice i fetched is the slice stored at index i |
| CertificateDBSC.WrittenPrefix | src/main/java/edu/ucsd/dbmi/certificates/contract/CertificateDBSC.java:106-130 | after slices 0 to k - 1 of a fresh record are dispatched, the ledger reports k slices and holds each one |
| CertificateDBSC.UploadedSlicesFetched | src/main/java/edu/ucsd/dbmi/certificates/contract/CertificateDBSC.java:424-453 | after an upload to a fresh record, the slices fetched are exactly the slices uploaded |
| CertificateDBSC.UploadThenReadBack | src/main/java/edu/ucsd/dbmi/certificates/contract/CertificateDBSC.java:424-472 | upload then read back: an empty PDF reads back empty; if (length - 1) mod 30720 < 8 the read throws; otherwise the PDF comes back without its last byte |
| CertificateDBSC.CopySlices | src/main/java/edu/ucsd/dbmi/certificates/contract/CertificateDBSC.java:456-465 | the copy loop fills a new array of the total length with the slices joined in order |
| CertificateDBSC.ConvertEndDates | src/main/java/edu/ucsd/dbmi/certificates/contract/CertificateDBSC.java:338-341 | over a list of distinct objects, each end date is multiplied by 1000 exactly once and nothing else changes |
| CertificateDBSC.DedupAndConvert | src/main/java/edu/ucsd/dbmi/certificates/contract/CertificateDBSC.java:336-341 | the result is the parsed list deduplicated; survivors have their end date times 1000 and nothing else changed; certificates dropped as duplicates are untouched |
| CertificateDBSC.RequestsWithoutNulls | src/main/java/edu/ucsd/dbmi/certificates/contract/CertificateDBSC.java:144-151 | when the wrapper never answers null, every slice is requested exactly once, in order |
| CertificateDBSC.RequestsMembership | src/main/java/edu/ucsd/dbmi/certificates/contract/CertificateDBSC.java:144-151 | the retry loop asks only for slices of the upload, and asks for every one of them |
| CertificateDBSC.RequestsLength | src/main/java/edu/ucsd/dbmi/certificates/contract/CertificateDBSC.java:144-151 | the request log grows by one request per slice plus one per null answer |
| CertificateDBSC.CertificateDBSC.UploadPDFSliceAsync | src/main/java/edu/ucsd/dbmi/certificates/contract/CertificateDBSC.java:142-153 | the same request is repeated once per null answer plus once, and the slice is dispatched exactly once |
| CertificateDBSC.CertificateDBSC.CopyRange | src/main/java/edu/ucsd/dbmi/certificates/contract/CertificateDBSC.java:116-117 | the new slice array holds exactly bytes [start, start + size) of the PDF |
| CertificateDBSC.CertificateDBSC.UploadSlice | src/main/java/edu/ucsd/dbmi/certificates/contract/CertificateDBSC.java:108-128 | one loop round requests planned slice i once per null answer plus once, then dispatches it once |
| CertificateDBSC.CertificateDBSC.UploadFullPDF | src/main/java/edu/ucsd/dbmi/certificates/contract/CertificateDBSC.java:93-131 | the slices are dispatched in index order, each exactly once; slice i is requested once per null answer the wrapper gives it, plus once, the slices in order |
| CertificateDBSC.CertificateDBSC.GetPDFBytes | src/main/java/edu/ucsd/dbmi/certificates/contract/CertificateDBSC.java:424-472 | the result is the fetched slices joined, or StringIndexOutOfBounds when a fetched slice is under 8 bytes |
| CertificateDBSC.CertificateDBSC.AddNewCertificate | src/main/java/edu/ucsd/dbmi/certificates/contract/CertificateDBSC.java:258-290 | a null type or record number throws before anything is sent; otherwise the record is dispatched first, then a null PDF throws, else the PDF is uploaded |
| CertificateDBSC.CertificateDBSC.SendQuery | src/main/java/edu/ucsd/dbmi/certificates/contract/CertificateDBSC.java:326-343 | the query is recorded; a failed send or parse fails; otherwise the result is a fresh list, deduplicated and converted |
| CertificateDBSC.CertificateDBSC.QueryAll | src/main/java/edu/ucsd/dbmi/certificates/contract/CertificateDBSC.java:306-344 | sends queryAll with the given keys and bounds, then deduplicates and converts |
| CertificateDBSC.CertificateDBSC.QueryAny | src/main/java/edu/ucsd/dbmi/certificates/contract/CertificateDBSC.java:360-398 | sends queryAny with the given keys and bounds, then deduplicates and converts |
| CertificateDBSC.CertificateDBSC.GetAllCertificates | src/main/java/edu/ucsd/dbmi/certificates/contract/CertificateDBSC.java:402-413 | sends getAllCertificates, then deduplicates and converts |
| CertificateDBSC.CertificateDBSC.HasValidCertificate | src/main/java/edu/ucsd/dbmi/certificates/contract/CertificateDBSC.java:483-485 | a null researcher number throws before sending; otherwise the contract's answer |
| CertificateDBSC.CertificateDBSC.GetCertificateCount | src/main/java/edu/ucsd/dbmi/certificates/contract/CertificateDBSC.java:489-491 | the contract's count reduced modulo 2^32 into the int range, exact when it fits |
| WebCertificateDB.FreeIDExists | src/main/java/edu/ucsd/dbmi/certificates/contract/WebCertificateDB.java:89-91 | while fewer than 55536 keys are in use, a free key exists, so the do-while can stop |
| WebCertificateDB.SecondsRoundTrip | src/main/java/edu/ucsd/dbmi/certificates/contract/WebCertificateDB.java:108-110 | seconds times 1000 (the Certificate constructor) and dateToUnixTime are inverse, before 1970 too |
| WebCertificateDB.DateToUnixTimeBounds | src/main/java/edu/ucsd/dbmi/certificates/contract/WebCertificateDB.java:108-110 | the division truncates toward zero: the date lies within a second of the result, on the side of zero |
| WebCertificateDB.Survivors | src/main/java/edu/ucsd/dbmi/certificates/contract/WebCertificateDB.java:228-248 | filtering never lengthens the list |
| WebCertificateDB.SurvivorsMembership | src/main/java/edu/ucsd/dbmi/certificates/contract/WebCertificateDB.java:228-248 | a certificate survives exactly when it was in the list and matches every given parameter |
| WebCertificateDB.NoCriteriaKeepsAll | src/main/java/edu/ucsd/dbmi/certificates/contract/WebCertificateDB.java:228-248 | with no parameter given, nothing is removed |
| WebCertificateDB.FailsCriteria | src/main/java/edu/ucsd/dbmi/certificates/contract/WebCertificateDB.java:233-247 | the if-else chain removes a certificate exactly when it does not match: low < endDate (strict), endDate <= high, and names and email equal when given |
| WebCertificateDB.FilterMatching | src/main/java/edu/ucsd/dbmi/certificates/contract/WebCertificateDB.java:228-248 | the iterator loop leaves exactly the matching certificates, in their order |
| WebCertificateDB.RemoveNonMatching | src/main/java/edu/ucsd/dbmi/certificates/contract/WebCertificateDB.java:228-248 | the list is updated in place to its matching certificates, in order |
| WebCertificateDB.ThreeKeys | src/main/java/edu/ucsd/dbmi/certificates/contract/WebCertificateDB.java:142-144 | three keys minted in a row add exactly the three strings, keep every existing key, and end with the keys returned |
| WebCertificateDB.WebCertificateDB.constructor | src/main/java/edu/ucsd/dbmi/certificates/contract/WebCertificateDB.java:27-54 | both maps start empty, which satisfies the inverse-maps invariant |
| WebCertificateDB.WebCertificateDB.GetRandomID | src/main/java/edu/ucsd/dbmi/certificates/contract/WebCertificateDB.java:65-70 | while a key is free, the key drawn lies in [10000, 65535] and is none of the keys already rejected in this call |
| WebCertificateDB.WebCertificateDB.InitID | src/main/java/edu/ucsd/dbmi/certificates/contract/WebCertificateDB.java:80-98 | needs a free key only for a string without one; a known string gets its stored key and neither map changes; a new string gets an unused key in range, entered in both maps, using up one key; the maps stay inverse |
| WebCertificateDB.WebCertificateDB.ResolveKey | src/main/java/edu/ucsd/dbmi/certificates/contract/WebCertificateDB.java:218-220 | an empty or unknown string resolves to 0, any other string to its stored key |
| WebCertificateDB.WebCertificateDB.InitKeys | src/main/java/edu/ucsd/dbmi/certificates/contract/WebCertificateDB.java:142-144 | needs one free key for each of email, first and last name that has none yet; they get keys in that order; existing keys are kept and the maps stay inverse |
| WebCertificateDB.WebCertificateDB.AddNewCertificateFromWeb | src/main/java/edu/ucsd/dbmi/certificates/contract/WebCertificateDB.java:129-157 | needs free keys only for the strings without one; the three keys are minted first and kept whatever follows; true exactly when end date, type code, record number and PDF are all present (no exception); with end date, type and record number present the record is sent with the minted keys and the end date in seconds, then the PDF slices, with their retries, as uploadFullPDF requests them; otherwise nothing is sent |
| WebCertificateDB.WebCertificateDB.QueryAnyFromWeb | src/main/java/edu/ucsd/dbmi/certificates/contract/WebCertificateDB.java:173-194 | sends queryAny with the resolved keys and bounds (a null date as 0); null exactly when the call fails; no key is added |
| WebCertificateDB.WebCertificateDB.QueryAllFromWeb | src/main/java/edu/ucsd/dbmi/certificates/contract/WebCertificateDB.java:210-256 | sends queryAll with the resolved keys and bounds; the result is the deduplicated answer filtered to the certificates matching every given parameter; null exactly when the call fails |
| WebCertificateDB.WebCertificateDB.GetAllCertificates | src/main/java/edu/ucsd/dbmi/certificates/contract/WebCertificateDB.java:260-267 | the whole table, deduplicated and converted; null exactly when the call fails |
| WebCertificateDB.WebCertificateDB.GetPDFBytes | src/main/java/edu/ucsd/dbmi/certificates/contract/WebCertificateDB.java:279-281 | forwards the read-back, exceptions included |
| WebCertificateDB.WebCertificateDB.HasValidCertificateFromWeb | src/main/java/edu/ucsd/dbmi/certificates/contract/WebCertificateDB.java:292-300 | true exactly when the string has a key and the contract answers true; an unknown string sends nothing |
| WebCertificateDB.WebCertificateDB.GetCertificateCount | src/main/java/edu/ucsd/dbmi/certificates/contract/WebCertificateDB.java:304-311 | -1 when the call fails, otherwise the count as an int |
| WebCertificateDB.KeysIdentifyStrings | src/main/java/edu/ucsd/dbmi/certificates/contract/WebCertificateDB.java:94-95 | two strings that resolve to the same non-zero key are the same string |
| CertificatesController.RouteCases | src/main/java/edu/ucsd/dbmi/certificates/controllers/CertificatesController.java:185-229 | all fields empty goes to the whole database; only both dates given goes to the date-only filter; a name, an email or exactly one date goes to queryAll |
| CertificatesController.OutsideDates | src/main/java/edu/ucsd/dbmi/certificates/controllers/CertificatesController.java:237-242 | throws NullPointer exactly when it reads a null bound; otherwise removes exactly the certificates outside (low, high] |
| CertificatesController.FilterDates | src/main/java/edu/ucsd/dbmi/certificates/controllers/CertificatesController.java:232-243 | the loop throws exactly when it reads a null bound; otherwise it leaves the certificates with low < endDate <= high, in order |
| CertificatesController.RemoveOutsideDates | src/main/java/edu/ucsd/dbmi/certificates/controllers/CertificatesController.java:231-245 | the list is filtered in place when no null bound is read, and the NullPointer case is reported exactly |
| CertificatesController.CertificatesController.SubmitAttempt | src/main/java/edu/ucsd/dbmi/certificates/controllers/CertificatesController.java:114-134 | names are stored upper-cased and email lower-cased, needing free keys only for those not yet known; "submit-success" exactly when the store succeeds, i.e. an end date and PDF bytes are present; with an end date the first transaction sent is the normalised record |
| CertificatesController.CertificatesController.DateOnlyQuery | src/main/java/edu/ucsd/dbmi/certificates/controllers/CertificatesController.java:229-246 | the whole table, filtered to low < endDate <= high; a failed call or a null bound read throws NullPointer |
| CertificatesController.CertificatesController.QueryFromQueryParameters | src/main/java/edu/ucsd/dbmi/certificates/controllers/CertificatesController.java:183-263 | on each of the three routes, the queries sent and the result: unfiltered, date-filtered, or queryAll with normalised case and unparseable dates as null |
| JavaLang.ArrayCopy | src/main/java/edu/ucsd/dbmi/certificates/contract/CertificateDBSC.java:117 | System.arraycopy replaces exactly the destination range with the source range |
| JavaLang.WrapInt32 | src/main/java/edu/ucsd/dbmi/certificates/contract/CertificateDBSC.java:429 | intValue() reduces modulo 2^32 and keeps values already in the int range |
| JavaLang.Quot | src/main/java/edu/ucsd/dbmi/certificates/contract/WebCertificateDB.java:109 | Java's / rounds toward zero, for both signs |
| JavaLang.Rem | src/main/java/edu/ucsd/dbmi/certificates/experiment/WebCertificateDBTester.java:304-307 | Java's % takes the sign of the dividend and completes the quotient |
| JavaLang.IntToStringRoundTrip | src/main/java/edu/ucsd/dbmi/certificates/utils/CertificateUtils.java:180 | a printed int reads back as itself |
| JavaLang.Pad2TwoDigits | src/main/java/edu/ucsd/dbmi/certificates/experiment/WebCertificateDBTester.java:309 | "%02d" prints a value in [0, 100) as exactly two digits that read back as it |
| JavaLang.Substring | src/main/java/edu/ucsd/dbmi/certificates/contract/CertificateDBSC.java:449 | substring succeeds exactly for a range inside the string, and then returns its characters |
| JavaLang.ToUpperCase | src/main/java/edu/ucsd/dbmi/certificates/controllers/CertificatesController.java:118-119 | the same length, no lower-case letter left, and each character equal to the input's up to case |
| JavaLang.ToLowerCase | src/main/java/edu/ucsd/dbmi/certificates/controllers/CertificatesController.java:120 | the same length, no upper-case letter left, and each character equal to the input's up to case |
| JavaLang.CaseConversionIdempotent | src/main/java/edu/ucsd/dbmi/certificates/controllers/CertificatesController.java:118-120 | normalising a normalised name or email changes nothing |
| WebCertificateDBTester.MsTimeFormat | src/main/java/edu/ucsd/dbmi/certificates/experiment/WebCertificateDBTester.java:303-310 | the text has at least 10 characters |
| WebCertificateDBTester.MsTimePartsRanges | src/main/java/edu/ucsd/dbmi/certificates/experiment/WebCertificateDBTester.java:304-307 | for ms >= 0: hours in [0, 23], minutes and seconds in [0, 59], millis in [0, 999] |
| WebCertificateDBTester.MsTimePartsNonNegative | src/main/java/edu/ucsd/dbmi/certificates/experiment/WebCertificateDBTester.java:304-307 | for ms >= 0 the truncating arithmetic agrees with floor division |
| WebCertificateDBTester.MsTimePartsReconstruct | src/main/java/edu/ucsd/dbmi/certificates/experiment/WebCertificateDBTester.java:304-307 | within a day, hour * 3600000 + minute * 60000 + second * 1000 + millis == ms |
| WebCertificateDBTester.MsTimePartsWrapsAfterADay | src/main/java/edu/ucsd/dbmi/certificates/experiment/WebCertificateDBTester.java:307 | a day later every field is the same: hours wrap modulo 24 |
| WebCertificateDBTester.SubSecondParts | src/main/java/edu/ucsd/dbmi/certificates/experiment/WebCertificateDBTester.java:304-307 | below one second only the millisecond field is non-zero |
| WebCertificateDBTester.MillisNotPadded | src/main/java/edu/ucsd/dbmi/certificates/experiment/WebCertificateDBTester.java:309 | the millis are not padded: 0 to 9 ms print as "00:00:00." and one digit, ten characters (5 ms gives "00:00:00.5") |
| WebCertificateDBTester.MsTimeFormatLayout | src/main/java/edu/ucsd/dbmi/certificates/experiment/WebCertificateDBTester.java:309 | the text is two-digit hours, ':', two-digit minutes, ':', two-digit seconds, '.', then the millis |
| WebCertificateDBTester.MsTimeFormatInjective | src/main/java/edu/ucsd/dbmi/certificates/experiment/WebCertificateDBTester.java:303-310 | within a day, different durations print differently |
| WebCertificateDBTester.GetRandomNumberInRange | src/main/java/edu/ucsd/dbmi/certificates/experiment/WebCertificateDBTester.java:218-226 | min >= max throws IllegalArgument; a bound that overflows the int range throws in nextInt; otherwise the result lies in [min, max] |
| WebCertificateDBTester.TestAddCertificatesGuard | src/main/java/edu/ucsd/dbmi/certificates/experiment/WebCertificateDBTester.java:83-86 | a negative count throws IllegalArgument; any other count is accepted as given |

## Left out

- Contract deployment and loading (`deploy`, `load`, `updatePath`, credentials, gas): network and file I/O through web3j. The constructor of `WebCertificateDB` takes an already connected client.
- The Solidity contract: the ledger is the log of dispatched transactions. A `sendAsync` transaction is taken as applied in dispatch order. Mining delay, reverts and reordering are not modelled.
- Read calls (`getCertificateBytesLength`, `getCertificateBytes`) are taken never to fail. Failures of query calls are modelled, as `None` answers.
- Jackson JSON parsing: the parsed certificate list is a parameter. Fields that a JSON record leaves null are not modelled.
- `Thread.sleep(100)` in the retry loop: timing only. How many times the wrapper answers a slice's request with null is a parameter of the upload (`nulls(i)` for slice i), which gives the loop its termination measure. A wrapper that answers null forever, on which the source spins forever, is not modelled.
- `java.util.Random`: `getRandomID` draws any in-range key that the current `initID` call has not already rejected. `getRandomNumberInRange` draws any value below the bound.
- `WebCertificateDB.WebCertificateDB.InitID`: a new string arriving when all 55536 keys are in use is excluded, because the source's do-while never ends there. `InitKeys` and its callers likewise need a free key for each of their strings that has none yet.
- `SimpleDateFormat` parsing and `getEndDateFormatted`: calendar code. Dates are integer milliseconds, and parsing is a partial function passed in.
- `toUpperCase` / `toLowerCase`: modelled on ASCII letters only; locale-dependent Unicode case mapping is not modelled.
- Java `long` overflow in `endDate * 1000` and `getTime() * 1000`, and `int` overflow of `totalLength` in `getPDFBytes`: integers are unbounded here. Only `intValue()` and `nextInt`'s bound wrap explicitly.
- Null strings: names, emails and course names are never null in the model. A null where the source calls `equals` or `toUpperCase` on the string is not modelled. Null `Integer` arguments are modelled for `addNewCertificate`'s type and record number, and for `endDate` and the PDF bytes. The `Integer` parameters of `Certificate`'s ten-argument constructor and `addNewCertificate`'s `researcherID`, `firstNameKey` and `lastNameKey` are taken non-null, so their unboxing NullPointerException is not modelled.
- The numeric value of `Objects.hash`: only which fields it hashes is modelled.
- web3j's rejection of negative values for `uint256` arguments: values are passed through unchecked.
- The `MultipartFile pdf` field of `CertificateSubmission`: upload plumbing. Only `pdfBytes` is modelled.
- HTTP handlers (`getFile`, `search_results`, `search_form`), Spring configuration, `ExperimentTrial.java`, and the tester's file writing, timing and memory statistics.
- Debug printing, except the substring preview in `getPDFBytes`, which can throw.
- `CertificateDB.Contract.CertificateBytesLength`: its contract states only that a record with no slice written has count 0. The exact count is the `SliceCount` function, whose own contract and lemmas say the rest.
- `WebCertificateDB.WebCertificateDB.ResolveKey`: the if-and-only-if of its first clause is stated only under the inverse-maps invariant `Valid()`.
- `CertificatesController.RemoveOutsideDates`: when a null bound throws part-way, the list has already lost the elements removed before the throw; the contract states only that the call fails, not what the list then holds.
