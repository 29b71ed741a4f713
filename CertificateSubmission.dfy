/** CertificateSubmission.java: the form a researcher fills in to store a
    certificate, before it is handed to the web database. */
module SubmissionBean {
  import opened Wrappers
  import opened JavaLang
  import CertificateBean

  /** CertificateSubmission.CertificateType: an enum of its own, with the same
      constants as Certificate's. */
  datatype CertificateType = CITI | HIPAA

  /** Every field of a submission, for stating what a setter leaves alone. */
  datatype SubmissionFields = SubmissionFields(
    email: string,
    firstName: string,
    lastName: string,
    certificateType: Option<CertificateType>,
    recordID: int,
    courseName: string,
    endDate: Option<int>,
    pdfBytes: Option<seq<Byte>>)

  class CertificateSubmission {
    var email: string
    var firstName: string
    var lastName: string
    var certificateType: Option<CertificateType>
    var recordID: int
    var courseName: string
    var endDate: Option<int>            // a java.util.Date in milliseconds, or null
    var pdfBytes: Option<seq<Byte>>     // null until the upload has been read

    constructor (email: string, firstName: string, lastName: string,
                 certificateType: Option<CertificateType>, recordID: int,
                 courseName: string, endDate: Option<int>)
      ensures Fields() == SubmissionFields(email, firstName, lastName, certificateType,
                                           recordID, courseName, endDate, None)
    {
      this.email := email;
      this.firstName := firstName;
      this.lastName := lastName;
      this.certificateType := certificateType;
      this.recordID := recordID;
      this.courseName := courseName;
      this.endDate := endDate;
      this.pdfBytes := None;
    }

    function Fields(): SubmissionFields
      reads this
    {
      SubmissionFields(email, firstName, lastName, certificateType, recordID,
                       courseName, endDate, pdfBytes)
    }

    /** getCertificateTypeInt: the integer code the contract stores for the type. */
    function GetCertificateTypeInt(): (code: int)
      reads this
      ensures -1 <= code <= 1
      ensures code == -1 <==> certificateType == None
    {
      match certificateType
      case Some(CITI) => 0
      case Some(HIPAA) => 1
      case None => -1
    }

    method SetEmail(email: string)
      modifies this
      ensures Fields() == old(Fields()).(email := email)
    {
      this.email := email;
    }

    method SetFirstName(firstName: string)
      modifies this
      ensures Fields() == old(Fields()).(firstName := firstName)
    {
      this.firstName := firstName;
    }

    method SetLastName(lastName: string)
      modifies this
      ensures Fields() == old(Fields()).(lastName := lastName)
    {
      this.lastName := lastName;
    }

    method SetCertificateType(certificateType: Option<CertificateType>)
      modifies this
      ensures Fields() == old(Fields()).(certificateType := certificateType)
    {
      this.certificateType := certificateType;
    }

    method SetRecordID(recordID: int)
      modifies this
      ensures Fields() == old(Fields()).(recordID := recordID)
    {
      this.recordID := recordID;
    }

    method SetCourseName(courseName: string)
      modifies this
      ensures Fields() == old(Fields()).(courseName := courseName)
    {
      this.courseName := courseName;
    }

    method SetEndDate(endDate: Option<int>)
      modifies this
      ensures Fields() == old(Fields()).(endDate := endDate)
    {
      this.endDate := endDate;
    }

    method SetPdfBytes(pdfBytes: Option<seq<Byte>>)
      modifies this
      ensures Fields() == old(Fields()).(pdfBytes := pdfBytes)
    {
      this.pdfBytes := pdfBytes;
    }
  }

  /** The two enums have the same constants: a set type survives the trip through
      the integer code and Certificate's constructor, and an unset type comes
      back unset. */
  lemma TypeCodeRoundTrip(s: CertificateSubmission)
    ensures s.certificateType == Some(CITI)
            <==> CertificateBean.TypeFromCode(s.GetCertificateTypeInt()) == Some(CertificateBean.CITI)
    ensures s.certificateType == Some(HIPAA)
            <==> CertificateBean.TypeFromCode(s.GetCertificateTypeInt()) == Some(CertificateBean.HIPAA)
    ensures s.certificateType == None
            <==> CertificateBean.TypeFromCode(s.GetCertificateTypeInt()) == None
  {
  }
}
