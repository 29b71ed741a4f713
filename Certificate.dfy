/** Certificate.java: the record a query returns, with an equality that ignores
    the email address and the PDF bytes. */
module CertificateBean {
  import opened Wrappers
  import opened JavaLang

  /** Certificate.CertificateType. */
  datatype CertificateType = CITI | HIPAA

  /** An enum field as string concatenation prints it: its name, or "null". */
  function TypeName(t: Option<CertificateType>): string {
    match t
    case None => "null"
    case Some(CITI) => "CITI"
    case Some(HIPAA) => "HIPAA"
  }

  /** How the 10-argument constructor reads the contract's integer type code. */
  function TypeFromCode(code: int): Option<CertificateType> {
    if code == 0 then Some(CITI) else if code == 1 then Some(HIPAA) else None
  }

  /** The nine fields that equals compares and hashCode hashes, in hashCode's order. */
  datatype EqualityFields = EqualityFields(
    researcherID: int,
    firstName: string,
    lastName: string,
    firstNameKey: int,
    lastNameKey: int,
    certificateType: Option<CertificateType>,
    recordID: int,
    courseName: string,
    endDate: int)

  class Certificate {
    var email: Option<string>
    var researcherID: int
    var firstName: string
    var lastName: string
    var firstNameKey: int
    var lastNameKey: int
    var certificateType: Option<CertificateType>
    var recordID: int
    var courseName: string
    var endDate: int            // java.util.Date as milliseconds since the epoch
    var pdf: Option<seq<Byte>>

    /** The 10-argument constructor: endDate arrives in seconds. */
    constructor (researcherID: int, firstName: string, lastName: string,
                 firstNameKey: int, lastNameKey: int, certificateType: int,
                 recordID: int, courseName: string, endDate: int, pdf: Option<seq<Byte>>)
      ensures email == None
      ensures this.researcherID == researcherID && this.firstName == firstName
      ensures this.lastName == lastName && this.firstNameKey == firstNameKey
      ensures this.lastNameKey == lastNameKey && this.recordID == recordID
      ensures this.courseName == courseName && this.pdf == pdf
      ensures certificateType == 0 <==> this.certificateType == Some(CITI)
      ensures certificateType == 1 <==> this.certificateType == Some(HIPAA)
      ensures this.endDate == endDate * 1000
    {
      this.email := None;
      this.researcherID := researcherID;
      this.firstName := firstName;
      this.lastName := lastName;
      this.firstNameKey := firstNameKey;
      this.lastNameKey := lastNameKey;
      this.certificateType := TypeFromCode(certificateType);
      this.recordID := recordID;
      this.courseName := courseName;
      this.endDate := endDate * 1000;
      this.pdf := pdf;
    }

    /** The values hashCode passes to Objects.hash. */
    function HashedFields(): EqualityFields
      reads this
    {
      EqualityFields(researcherID, firstName, lastName, firstNameKey, lastNameKey,
                     certificateType, recordID, courseName, endDate)
    }

    /** Certificate.equals; another class than Certificate cannot be passed here. */
    predicate Equals(o: Certificate?)
      reads this, o
    {
      if this == o then true
      else if o == null then false
      else
        && researcherID == o.researcherID
        && firstName == o.firstName
        && lastName == o.lastName
        && firstNameKey == o.firstNameKey
        && lastNameKey == o.lastNameKey
        && certificateType == o.certificateType
        && recordID == o.recordID
        && courseName == o.courseName
        && endDate == o.endDate
    }

    /** Certificate.toString. */
    function ToString(): string
      reads this
    {
      "Certificate " + IntToString(recordID)
      + (" for researcher " + firstName + " " + lastName + " (ID = " + IntToString(researcherID)
         + ") for course " + courseName)
    }

    method SetEmail(email: Option<string>)
      modifies this
      ensures this.email == email
      ensures HashedFields() == old(HashedFields()) && pdf == old(pdf)
    {
      this.email := email;
    }

    method SetEndDate(endDate: int)
      modifies this
      ensures HashedFields() == old(HashedFields()).(endDate := endDate)
      ensures email == old(email) && pdf == old(pdf)
    {
      this.endDate := endDate;
    }

    method SetPdf(pdf: Option<seq<Byte>>)
      modifies this
      ensures this.pdf == pdf
      ensures HashedFields() == old(HashedFields()) && email == old(email)
    {
      this.pdf := pdf;
    }
  }

  /** The equality fields of each certificate of a list, in list order. */
  function FieldsOf(s: seq<Certificate>): (ks: seq<EqualityFields>)
    reads set c | c in s
    ensures |ks| == |s|
    ensures forall i :: 0 <= i < |s| ==> ks[i] == s[i].HashedFields()
  {
    seq(|s|, i requires 0 <= i < |s| reads set c | c in s => s[i].HashedFields())
  }

  /** equals is an equivalence relation, and false against null. */
  lemma EqualsIsEquivalence(a: Certificate, b: Certificate, c: Certificate)
    ensures a.Equals(a) && !a.Equals(null)
    ensures a.Equals(b) <==> b.Equals(a)
    ensures a.Equals(b) && b.Equals(c) ==> a.Equals(c)
  {
  }

  /** equals holds exactly when the hashed fields agree: equal certificates hash
      equally, and the fields are a faithful key for duplicate removal. */
  lemma EqualsIffSameHashedFields(a: Certificate, b: Certificate)
    ensures a.Equals(b) <==> a.HashedFields() == b.HashedFields()
  {
  }

  /** toString prints only fields that equals compares: equal certificates
      print alike. */
  lemma ToStringRespectsEquals(a: Certificate, b: Certificate)
    requires a.Equals(b)
    ensures a.ToString() == b.ToString()
  {
  }

  /** What follows a prefix of a concatenation. */
  lemma AfterPrefix(p: string, x: string, t: string)
    ensures (p + x + t)[|p|..] == x + t
  {
    assert p + x + t == p + (x + t);
  }

  /** The text after "Certificate " and before the first space is the record
      number, so two certificates that print alike have the same record number. */
  lemma ToStringDeterminesRecordID(a: Certificate, b: Certificate)
    requires a.ToString() == b.ToString()
    ensures a.recordID == b.recordID
  {
    var ia, ib := IntToString(a.recordID), IntToString(b.recordID);
    var ta := " for researcher " + a.firstName + " " + a.lastName + " (ID = " + IntToString(a.researcherID)
              + ") for course " + a.courseName;
    var tb := " for researcher " + b.firstName + " " + b.lastName + " (ID = " + IntToString(b.researcherID)
              + ") for course " + b.courseName;
    assert a.ToString() == "Certificate " + ia + ta;
    assert b.ToString() == "Certificate " + ib + tb;
    AfterPrefix("Certificate ", ia, ta);
    AfterPrefix("Certificate ", ib, tb);
    IntToStringAlphabet(a.recordID);
    IntToStringAlphabet(b.recordID);
    PrefixBeforeDelimiter(ia, ta, ib, tb, ' ');
    IntToStringRoundTrip(a.recordID);
    IntToStringRoundTrip(b.recordID);
  }
}
