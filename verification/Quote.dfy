// Parsing a quote and choosing the bytes that its signature covers.
module QuoteFormat {
  import opened ByteOperands
  import opened Layout
  import opened QuoteStructures
  import opened AuthData

  const TEE_TYPE_SGX: int := 0
  const TEE_TYPE_TDX: int := 0x81
  const QUOTE_MIN_BYTE_LEN: int := 1020
  const BODY_SGX_ENCLAVE_REPORT_TYPE: int := 1
  const BODY_TD_REPORT10_TYPE: int := 2
  const BODY_TD_REPORT15_TYPE: int := 3
  const BODY_TD_REPORT15EX_TYPE: int := 4
  const ECDSA_256_WITH_P256_CURVE: int := 2
  const PCK_ID_QE_REPORT_CERTIFICATION_DATA: int := 6
  const INTEL_QE_VENDOR_ID: seq<byte> := [0x93, 0x9A, 0x72, 0x33, 0xF7, 0x9C, 0x4C, 0xA9,
                                          0x94, 0x0A, 0x0D, 0xB3, 0x95, 0x7F, 0x06, 0x07]

  // ---- The format, on raw bytes ----

  function HeaderOf(raw: seq<byte>): Header
    requires |raw| >= QUOTE_MIN_BYTE_LEN
  {
    HeaderAt(raw[..48])
  }

  // Meaningful from version 5 on.
  function BodyOf(raw: seq<byte>): Body
    requires |raw| >= QUOTE_MIN_BYTE_LEN
  {
    BodyAt(raw[48..54])
  }

  // The length of a report of the given body type; 0 for an unknown type.
  function ReportLength(bodyType: int): nat {
    if bodyType == 1 then 384 else if bodyType == 2 then 584 else if bodyType == 3 then 648
    else if bodyType == 4 then 885 else 0
  }

  // Which report follows; 0 for none.
  function ReportKind(raw: seq<byte>): int
    requires |raw| >= QUOTE_MIN_BYTE_LEN
  {
    if HeaderOf(raw).version > 4 then BodyOf(raw).bodyType
    else if HeaderOf(raw).teeType == TEE_TYPE_SGX then 1
    else if HeaderOf(raw).teeType == TEE_TYPE_TDX then 2
    else 0
  }

  function ReportStart(raw: seq<byte>): nat
    requires |raw| >= QUOTE_MIN_BYTE_LEN
  {
    if HeaderOf(raw).version > 4 then 54 else 48
  }

  // Where the size of the authentication data stands.
  function SignedEnd(raw: seq<byte>): nat
    requires |raw| >= QUOTE_MIN_BYTE_LEN
  {
    ReportStart(raw) + ReportLength(ReportKind(raw))
  }

  predicate ReportFormat(raw: seq<byte>) {
    && |raw| >= QUOTE_MIN_BYTE_LEN && SignedEnd(raw) <= |raw|
    && (HeaderOf(raw).version > 4 ==> 1 <= ReportKind(raw) <= 4 && BodyOf(raw).size == ReportLength(ReportKind(raw)))
  }

  predicate SizeFormat(raw: seq<byte>) {
    && ReportFormat(raw) && SignedEnd(raw) + 4 <= |raw|
    && SignedEnd(raw) + 4 + Word32(raw[SignedEnd(raw)..SignedEnd(raw) + 4]) <= |raw|
  }

  // The bytes that the declared size covers.
  function AuthBytes(raw: seq<byte>): seq<byte>
    requires SizeFormat(raw)
  {
    var p := SignedEnd(raw) + 4;
    raw[p..p + Word32(raw[p - 4..p])]
  }

  predicate AuthFormat(raw: seq<byte>) {
    SizeFormat(raw) && AuthAccepted(HeaderOf(raw).version, AuthBytes(raw))
  }

  datatype Given = Given(
    qeReportSignature: seq<byte>, qeReport: EnclaveReport, attestKeyData: seq<byte>, qeAuthData: seq<byte>,
    certificationData: CertificationData, quoteSignature: seq<byte>)

  function GivenByV3(v: V3AuthData): Given {
    Given(v.qeReportSignature, v.qeReport, v.attestationKey, v.qeAuthData.data, v.certificationData, v.signature)
  }

  // From version 4 on the quoting enclave's report is nested in the
  // certification data.
  function GivenByV4(v: V4AuthData): Given
    requires QEReportFormat(v.certificationData.data)
  {
    var q := QEReportAt(v.certificationData.data);
    Given(q.qeReportSignature, q.qeReport, v.attestationKey, q.qeAuthData.data, q.certificationData, v.signature)
  }

  predicate AuthAccepted(version: int, s: seq<byte>) {
    && (version == 3 ==> V3Format(s))
    && (version > 3 ==> V4Format(s) && QEReportFormat(V4At(s).certificationData.data))
  }

  // What the authentication data s gives: its own structure, and the copies that
  // the getters give out.
  predicate AuthParts(version: int, s: seq<byte>, v3: V3AuthData, v4: V4AuthData, given: Given)
    requires AuthAccepted(version, s)
  {
    && v3 == (if version == 3 then V3At(s) else ZeroV3())
    && v4 == (if version > 3 then V4At(s) else ZeroV4())
    && (version == 3 ==> given == GivenByV3(v3))
    && (version > 3 ==> given == GivenByV4(v4))
  }

  // The report of kind k from its bytes r, and the others value-initialised.
  predicate ReportParts(k: int, r: seq<byte>, er: EnclaveReport, r10: TDReport10, r15: TDReport15, r15x: TDReport15Ex)
    requires |r| == ReportLength(k)
  {
    && er == (if k == 1 then EnclaveReportAt(r) else ZeroEnclaveReport())
    && r10 == (if k == 2 then TDReport10At(r) else ZeroTDReport10())
    && r15 == (if k == 3 then TDReport15At(r) else ZeroTDReport15())
    && r15x == (if k == 4 then TDReport15ExAt(r) else ZeroTDReport15Ex())
  }

  predicate QuoteParts(raw: seq<byte>, h: Header, b: Body, er: EnclaveReport, r10: TDReport10, r15: TDReport15,
                       r15x: TDReport15Ex, size: int, v3: V3AuthData, v4: V4AuthData, given: Given)
    requires AuthFormat(raw)
  {
    && h == HeaderOf(raw)
    && b == (if h.version > 4 then BodyOf(raw) else ZeroBody())
    && ReportParts(ReportKind(raw), ReportOf(raw), er, r10, r15, r15x)
    && size == |AuthBytes(raw)|
    && AuthParts(h.version, AuthBytes(raw), v3, v4, given)
  }

  function ReportOf(raw: seq<byte>): (r: seq<byte>)
    requires ReportFormat(raw)
    ensures |r| == ReportLength(ReportKind(raw))
  {
    raw[ReportStart(raw)..SignedEnd(raw)]
  }

  // ---- The parser ----

  class Quote {
    var header: Header
    var body: Body
    var enclaveReport: EnclaveReport
    var tdReport10: TDReport10
    var tdReport15: TDReport15
    var tdReport15Ex: TDReport15Ex
    var authDataSize: uint32
    var signedData: seq<byte>
    var authDataV3: V3AuthData
    var authDataV4: V4AuthData
    var qeReportSignature: seq<byte>
    var qeReport: EnclaveReport
    var attestKeyData: seq<byte>
    var qeAuthData: seq<byte>
    var certificationData: CertificationData
    var quoteSignature: seq<byte>

    constructor ()
      ensures signedData == []
    {
      header, body, enclaveReport := ZeroHeader(), ZeroBody(), ZeroEnclaveReport();
      tdReport10, tdReport15, tdReport15Ex := ZeroTDReport10(), ZeroTDReport15(), ZeroTDReport15Ex();
      authDataSize, signedData, authDataV3, authDataV4 := 0, [], ZeroV3(), ZeroV4();
      qeReportSignature, qeReport, attestKeyData := Zeros(64), ZeroEnclaveReport(), Zeros(64);
      qeAuthData, certificationData, quoteSignature := [], NoCert, Zeros(64);
    }

    // What the getters give out of the authentication data.
    function Copies(): Given
      reads this
    {
      Given(qeReportSignature, qeReport, attestKeyData, qeAuthData, certificationData, quoteSignature)
    }

    // The object after a successful parse of raw.
    predicate Holds(raw: seq<byte>)
      requires AuthFormat(raw)
      reads this
    {
      && QuoteParts(raw, header, body, enclaveReport, tdReport10, tdReport15, tdReport15Ex,
                    authDataSize, authDataV3, authDataV4, Copies())
      && (ReportKind(raw) != 0 ==> signedData == raw[..SignedEnd(raw)])
    }

    // getDataToSignatureVerification.
    function DataToSignatureVerification(raw: seq<byte>, sizeToCopy: nat): seq<byte>
      requires sizeToCopy <= |raw|
    {
      raw[..sizeToCopy]
    }

    // parse, the report of version 5 and above, chosen by the body descriptor.
    method ParseBodyReport(raw: seq<byte>)
      returns (ok: bool, from: nat, b: Body, er: EnclaveReport, r10: TDReport10, r15: TDReport15, r15x: TDReport15Ex)
      requires |raw| >= QUOTE_MIN_BYTE_LEN && HeaderOf(raw).version > 4
      modifies `signedData
      ensures from <= |raw| && (ok <==> ReportFormat(raw))
      ensures ok ==>
                && from == SignedEnd(raw) && b == BodyOf(raw) && signedData == raw[..from]
                && ReportParts(ReportKind(raw), ReportOf(raw), er, r10, r15, r15x)
    {
      er, r10, r15, r15x := ZeroEnclaveReport(), ZeroTDReport10(), ZeroTDReport15(), ZeroTDReport15Ex();
      ok, from, b := InsertBody(raw, 48, 48 + 6);
      if b.bodyType == BODY_SGX_ENCLAVE_REPORT_TYPE {
        if b.size != 384 { return false, from, b, er, r10, r15, r15x; }
        if |raw| - from < 384 { return false, from, b, er, r10, r15, r15x; }
        ok, from, er := InsertEnclaveReport(raw, from, from + 384);
        if !ok { return; }
        signedData := DataToSignatureVerification(raw, 48 + 6 + 384);
      } else if b.bodyType == BODY_TD_REPORT10_TYPE {
        if b.size != 584 { return false, from, b, er, r10, r15, r15x; }
        if |raw| - from < 584 { return false, from, b, er, r10, r15, r15x; }
        ok, from, r10 := InsertTDReport10(raw, from, from + 584);
        if !ok { return; }
        signedData := DataToSignatureVerification(raw, 48 + 6 + 584);
      } else if b.bodyType == BODY_TD_REPORT15_TYPE {
        if b.size != 648 { return false, from, b, er, r10, r15, r15x; }
        if |raw| - from < 648 { return false, from, b, er, r10, r15, r15x; }
        ok, from, r15 := InsertTDReport15(raw, from, from + 648);
        if !ok { return; }
        signedData := DataToSignatureVerification(raw, 48 + 6 + 648);
      } else if b.bodyType == BODY_TD_REPORT15EX_TYPE {
        if b.size != 885 { return false, from, b, er, r10, r15, r15x; }
        if |raw| - from < 885 { return false, from, b, er, r10, r15, r15x; }
        ok, from, r15x := InsertTDReport15Ex(raw, from, from + 885);
        if !ok { return; }
        signedData := DataToSignatureVerification(raw, 48 + 6 + 885);
      } else {
        ok := false;
      }
    }

    // parse, the report of the versions before 5, chosen by the TEE type.
    method ParsePlainReport(raw: seq<byte>) returns (ok: bool, from: nat, er: EnclaveReport, r10: TDReport10)
      requires |raw| >= QUOTE_MIN_BYTE_LEN && HeaderOf(raw).version <= 4 && header == HeaderOf(raw)
      modifies `signedData
      ensures ok && ReportFormat(raw) && from == SignedEnd(raw)
      ensures signedData == (if ReportKind(raw) == 0 then old(signedData) else raw[..from])
      ensures ReportParts(ReportKind(raw), ReportOf(raw), er, r10, ZeroTDReport15(), ZeroTDReport15Ex())
    {
      ok, from, er, r10 := true, 48, ZeroEnclaveReport(), ZeroTDReport10();
      if header.teeType == TEE_TYPE_SGX {
        if |raw| - from < 384 { return false, from, er, r10; }
        ok, from, er := InsertEnclaveReport(raw, from, from + 384);
        if !ok { return; }
        signedData := DataToSignatureVerification(raw, 48 + 384);
      } else if header.teeType == TEE_TYPE_TDX {
        if |raw| - from < 584 { return false, from, er, r10; }
        ok, from, r10 := InsertTDReport10(raw, from, from + 584);
        if !ok { return; }
        signedData := DataToSignatureVerification(raw, 48 + 584);
      }
    }

    // parse, the authentication data of the declared size.
    method ParseAuth(raw: seq<byte>, from0: nat, size: nat) returns (ok: bool, v3: V3AuthData, v4: V4AuthData)
      requires from0 + size <= |raw|
      modifies `qeReportSignature, `qeReport, `attestKeyData, `qeAuthData, `certificationData, `quoteSignature
      ensures var s := raw[from0..from0 + size];
              && (ok <==> AuthAccepted(header.version, s))
              && (ok ==> AuthParts(header.version, s, v3, v4, Copies()))
    {
      var from := from0;
      ok, v3, v4 := true, ZeroV3(), ZeroV4();
      if header.version == 3 {
        ok, from, v3 := InsertV3AuthData(raw, from, from + size);
        if !ok { return; }
        qeReportSignature := v3.qeReportSignature;
        qeReport := v3.qeReport;
        attestKeyData := v3.attestationKey;
        qeAuthData := v3.qeAuthData.data;
        certificationData := v3.certificationData;
        quoteSignature := v3.signature;
      } else if header.version > 3 {
        ok, from, v4 := InsertV4AuthData(raw, from, from + size);
        if !ok { return; }
        var reportBytes := v4.certificationData.data;
        assert reportBytes[0..|reportBytes|] == reportBytes;
        var beg, q;
        ok, beg, q := InsertQEReportCertificationData(reportBytes, 0, |reportBytes|);
        if !ok { return; }
        qeReportSignature := q.qeReportSignature;
        qeReport := q.qeReport;
        qeAuthData := q.qeAuthData.data;
        attestKeyData := v4.attestationKey;
        certificationData := q.certificationData;
        quoteSignature := v4.signature;
      }
    }

    // parse, the report after the header.
    method ParseReport(raw: seq<byte>)
      returns (ok: bool, from: nat, b: Body, er: EnclaveReport, r10: TDReport10, r15: TDReport15, r15x: TDReport15Ex)
      requires |raw| >= QUOTE_MIN_BYTE_LEN && header == HeaderOf(raw)
      modifies `signedData
      ensures from <= |raw| && (ok <==> ReportFormat(raw))
      ensures ok ==>
                && from == SignedEnd(raw)
                && signedData == (if ReportKind(raw) == 0 then old(signedData) else raw[..from])
                && b == (if header.version > 4 then BodyOf(raw) else ZeroBody())
                && ReportParts(ReportKind(raw), ReportOf(raw), er, r10, r15, r15x)
    {
      b, er, r10, r15, r15x := ZeroBody(), ZeroEnclaveReport(), ZeroTDReport10(), ZeroTDReport15(), ZeroTDReport15Ex();
      if header.version > 4 {
        ok, from, b, er, r10, r15, r15x := ParseBodyReport(raw);
      } else {
        ok, from, er, r10 := ParsePlainReport(raw);
      }
    }

    // parse, the size of the authentication data and the data.
    method ParseSizeAndAuth(raw: seq<byte>, from0: nat) returns (ok: bool, size: uint32, v3: V3AuthData, v4: V4AuthData)
      requires ReportFormat(raw) && from0 == SignedEnd(raw) && header == HeaderOf(raw)
      modifies `qeReportSignature, `qeReport, `attestKeyData, `qeAuthData, `certificationData, `quoteSignature
      ensures ok <==> AuthFormat(raw)
      ensures ok ==>
                size == |AuthBytes(raw)| && AuthParts(header.version, AuthBytes(raw), v3, v4, Copies())
    {
      hide AuthAccepted, AuthParts, HeaderAt, BodyAt;
      var from := from0;
      v3, v4 := ZeroV3(), ZeroV4();
      ok, from, size := ReadUint32(raw, from, |raw|);
      if !ok { return; }
      if size > |raw| - from { return false, size, v3, v4; }
      ok, v3, v4 := ParseAuth(raw, from, size);
    }

    // parse.
    method Parse(raw: seq<byte>) returns (ok: bool)
      modifies this
      ensures ok <==> AuthFormat(raw)
      ensures ok ==> Holds(raw)
      ensures ok && ReportKind(raw) == 0 ==> signedData == old(signedData)
    {
      hide AuthAccepted, AuthParts, HeaderAt, BodyAt, EnclaveReportAt, TDReport10At, TDReport15At, TDReport15ExAt;
      if |raw| < QUOTE_MIN_BYTE_LEN { return false; }
      ok := ParseHeader(raw);
      if !ok { return; }
      var b, er, r10, r15, r15x, size, v3, v4;
      ok, b, er, r10, r15, r15x, size, v3, v4 := ParseParts(raw);
      if !ok { return; }
      Store(b, er, r10, r15, r15x, size, v3, v4);
    }

    method ParseHeader(raw: seq<byte>) returns (ok: bool)
      requires |raw| >= QUOTE_MIN_BYTE_LEN
      modifies `header
      ensures ok && header == HeaderOf(raw)
    {
      var from, localHeader;
      ok, from, localHeader := InsertHeader(raw, 0, 0 + 48);
      if !ok { return; }
      assert raw[0..48] == raw[..48];
      header := localHeader;
    }

    // parse after the header, up to the assignments that end it.
    method ParseParts(raw: seq<byte>)
      returns (ok: bool, b: Body, er: EnclaveReport, r10: TDReport10, r15: TDReport15, r15x: TDReport15Ex,
               size: uint32, v3: V3AuthData, v4: V4AuthData)
      requires |raw| >= QUOTE_MIN_BYTE_LEN && header == HeaderOf(raw)
      modifies `signedData, `qeReportSignature, `qeReport, `attestKeyData, `qeAuthData, `certificationData, `quoteSignature
      ensures ok <==> AuthFormat(raw)
      ensures ok ==> QuoteParts(raw, header, b, er, r10, r15, r15x, size, v3, v4, Copies())
      ensures ok ==> signedData == (if ReportKind(raw) == 0 then old(signedData) else raw[..SignedEnd(raw)])
    {
      var from;
      size, v3, v4 := 0, ZeroV3(), ZeroV4();
      ok, from, b, er, r10, r15, r15x := ParseReport(raw);
      if !ok { return; }
      ok, size, v3, v4 := ParseSizeAndAuth(raw, from);
    }

    method Store(b: Body, er: EnclaveReport, r10: TDReport10, r15: TDReport15, r15x: TDReport15Ex,
                 size: uint32, v3: V3AuthData, v4: V4AuthData)
      modifies `body, `enclaveReport, `tdReport10, `tdReport15, `tdReport15Ex, `authDataSize, `authDataV3, `authDataV4
      ensures body == b && enclaveReport == er && tdReport10 == r10 && tdReport15 == r15 && tdReport15Ex == r15x
      ensures authDataSize == size && authDataV3 == v3 && authDataV4 == v4
    {
      body := b;
      enclaveReport := er;
      tdReport10 := r10;
      tdReport15 := r15;
      tdReport15Ex := r15x;
      authDataSize := size;
      authDataV3 := v3;
      authDataV4 := v4;
    }

    // validate.
    predicate Validate()
      reads this
    {
      && (header.version == 3 || header.version == 4 || header.version == 5)
      && header.attestationKeyType == ECDSA_256_WITH_P256_CURVE
      && (header.teeType == TEE_TYPE_SGX || header.teeType == TEE_TYPE_TDX)
      && header.qeVendorId == INTEL_QE_VENDOR_ID
      && (header.version == 3 ==>
            header.teeType == TEE_TYPE_SGX && 1 <= authDataV3.certificationData.kind <= 5)
      && (header.version == 4 || header.version == 5 ==>
            && authDataV4.certificationData.kind == PCK_ID_QE_REPORT_CERTIFICATION_DATA
            && 1 <= certificationData.kind <= 5)
      && (header.version == 5 ==>
            && 1 <= body.bodyType <= 4
            && !(header.teeType == TEE_TYPE_SGX && body.bodyType != BODY_SGX_ENCLAVE_REPORT_TYPE)
            && !(header.teeType != TEE_TYPE_SGX && body.bodyType == BODY_SGX_ENCLAVE_REPORT_TYPE))
    }

    function TeeTcbSvn(): seq<byte>
      reads this
    {
      if header.version < 4 then Zeros(16)
      else if header.version == 4 then tdReport10.teeTcbSvn
      else if body.bodyType == BODY_TD_REPORT10_TYPE then tdReport10.teeTcbSvn
      else if body.bodyType == BODY_TD_REPORT15_TYPE then tdReport15.base.teeTcbSvn
      else tdReport15Ex.base.base.teeTcbSvn
    }

    function MrSignerSeam(): seq<byte>
      reads this
    {
      if header.version == 4 then tdReport10.mrSignerSeam
      else if body.bodyType == BODY_TD_REPORT10_TYPE then tdReport10.mrSignerSeam
      else if body.bodyType == BODY_TD_REPORT15_TYPE then tdReport15.base.mrSignerSeam
      else tdReport15Ex.base.base.mrSignerSeam
    }

    function SeamAttributes(): seq<byte>
      reads this
    {
      if header.version == 4 then tdReport10.seamAttributes
      else if body.bodyType == BODY_TD_REPORT10_TYPE then tdReport10.seamAttributes
      else if body.bodyType == BODY_TD_REPORT15_TYPE then tdReport15.base.seamAttributes
      else tdReport15Ex.base.base.seamAttributes
    }

    function TeeTcbSvn2(): seq<byte>
      reads this
    {
      if body.bodyType == BODY_TD_REPORT15_TYPE then tdReport15.teeTcbSvn2 else tdReport15Ex.base.teeTcbSvn2
    }

    // The parsed report, written back.
    function ReportBytes(k: int): seq<byte>
      requires EnclaveReportSized(enclaveReport) && TDReport10Sized(tdReport10)
      requires TDReport15Sized(tdReport15) && TDReport15ExSized(tdReport15Ex)
      reads this
    {
      if k == 1 then EnclaveReportBytes(enclaveReport) else if k == 2 then TDReport10Bytes(tdReport10)
      else if k == 3 then TDReport15Bytes(tdReport15) else TDReport15ExBytes(tdReport15Ex)
    }

    predicate Sized()
      reads this
    {
      && HeaderSized(header) && EnclaveReportSized(enclaveReport) && TDReport10Sized(tdReport10)
      && TDReport15Sized(tdReport15) && TDReport15ExSized(tdReport15Ex)
    }

    lemma PartsSized(raw: seq<byte>)
      requires AuthFormat(raw) && Holds(raw)
      ensures Sized()
    {
    }

    lemma KnownReport(raw: seq<byte>)
      requires AuthFormat(raw) && Holds(raw) && Validate()
      ensures 1 <= ReportKind(raw) <= 4
      ensures header.teeType == TEE_TYPE_TDX ==> ReportKind(raw) >= 2
    {
    }

    // The signed bytes of a valid quote are its raw prefix up to the size of the
    // authentication data, and the parsed header, body descriptor and report
    // written back.
    lemma {:induction false} SignedDataIsRawPrefix(raw: seq<byte>)
      requires AuthFormat(raw) && Holds(raw) && Validate()
      ensures Sized() && 1 <= ReportKind(raw) <= 4 && signedData == raw[..SignedEnd(raw)]
      ensures signedData == HeaderBytes(header) + (if header.version == 5 then BodyBytes(body) else [])
                            + ReportBytes(ReportKind(raw))
      ensures raw[SignedEnd(raw)..SignedEnd(raw) + 4] == Bytes32(authDataSize)
    {
      PartsSized(raw);
      KnownReport(raw);
      HeadWrittenBack(raw);
      ReportWrittenBack(ReportKind(raw), ReportOf(raw));
      SizeWritten(raw);
      HeadAndReport(raw);
    }

    lemma ReportWrittenBack(k: int, r: seq<byte>)
      requires 1 <= k <= 4 && |r| == ReportLength(k)
      requires EnclaveReportSized(enclaveReport) && TDReport10Sized(tdReport10)
      requires TDReport15Sized(tdReport15) && TDReport15ExSized(tdReport15Ex)
      requires ReportParts(k, r, enclaveReport, tdReport10, tdReport15, tdReport15Ex)
      ensures ReportBytes(k) == r
    {
      if k == 1 { EnclaveReportBytesOfAt(r); } else if k == 2 { TDReport10BytesOfAt(r); }
      else if k == 3 { TDReport15BytesOfAt(r); } else { TDReport15ExBytesOfAt(r); }
    }

    // The authentication data of a valid quote, written back, is what follows
    // the size field; from version 4 on the nested structure fills exactly the
    // certification data that holds it.
    lemma {:induction false} AuthDataIsRaw(raw: seq<byte>)
      requires AuthFormat(raw) && Holds(raw) && Validate()
      ensures header.version == 3 ==> authDataV3.Consistent() && authDataV3.Bytes() <= AuthBytes(raw)
      ensures header.version > 3 ==> authDataV4.Consistent() && authDataV4.Bytes() <= AuthBytes(raw)
      ensures header.version > 3 ==>
                var q := QEReportAt(authDataV4.certificationData.data);
                q.Consistent() && q.Bytes() == authDataV4.certificationData.data && Copies() == GivenByV4(authDataV4)
    {
      if header.version == 3 {
        V3BytesOfAt(AuthBytes(raw));
      } else {
        V4BytesOfAt(AuthBytes(raw));
        QEReportBytesOfAt(authDataV4.certificationData.data);
      }
    }

    // On every TDX quote the accessors give the same bytes of the report,
    // whichever kind it is.
    lemma {:induction false} SameOffsetsForAllTdReports(raw: seq<byte>)
      requires AuthFormat(raw) && Holds(raw) && Validate() && header.teeType == TEE_TYPE_TDX
      ensures var p := ReportStart(raw);
              && TeeTcbSvn() == raw[p..p + 16]
              && MrSignerSeam() == raw[p + 64..p + 112]
              && SeamAttributes() == raw[p + 112..p + 120]
      ensures ReportKind(raw) >= 3 ==> TeeTcbSvn2() == raw[ReportStart(raw) + 584..ReportStart(raw) + 600]
    {
      hide TDReport10At, TDReport15At, TDReport15ExAt, HeaderAt, BodyAt, EnclaveReportAt, AuthAccepted, AuthParts;
      var p, e := ReportStart(raw), SignedEnd(raw);
      var r := raw[p..e];
      Within(raw, p, e - p, 0, 16);
      Within(raw, p, e - p, 64, 112);
      Within(raw, p, e - p, 112, 120);
      TDReportHead(r);
      if ReportKind(raw) >= 3 { Within(raw, p, e - p, 584, 600); }
    }

    // What the getters give out, at its place in the raw bytes.
    lemma {:induction false} GivenByOffsets(raw: seq<byte>)
      requires AuthFormat(raw) && Holds(raw)
      ensures AcceptedAt(raw)
      ensures Uint16At(raw, 0) == 3 ==> Given3At(raw, EndAt(raw) + 4, Uint32At(raw, EndAt(raw)), Copies(), authDataV3)
      ensures Uint16At(raw, 0) > 3 ==> Given4At(raw, EndAt(raw) + 4, Uint32At(raw, EndAt(raw)), Copies(), authDataV4)
    {
      hide AuthFormat, SignedEnd, EndAt, KindAt, Holds, Uint16At, Uint32At, Auth3At, Auth4At, V3At, V4At, V3Format, V4Format,
        QEReportFormat, Given3At, Given4At;
      AcceptedByOffsets(raw);
      HeadByOffsets(raw);
      HeldAuth(raw);
      var p, n := EndAt(raw) + 4, Uint32At(raw, EndAt(raw));
      if Uint16At(raw, 0) == 3 { Given3OnRaw(raw, p, n); }
      if Uint16At(raw, 0) > 3 { Given4OnRaw(raw, p, n); }
    }

    lemma HeldAuth(raw: seq<byte>)
      requires AuthFormat(raw) && Holds(raw)
      ensures header == HeaderOf(raw) && AuthAccepted(header.version, AuthBytes(raw))
      ensures header.version > 4 ==> body == BodyOf(raw)
      ensures AuthParts(header.version, AuthBytes(raw), authDataV3, authDataV4, Copies())
    {
    }

    // validate, on the raw bytes.
    lemma {:induction false} ValidByOffsets(raw: seq<byte>)
      requires AuthFormat(raw) && Holds(raw)
      ensures AcceptedAt(raw) && (Validate() <==> ValidAt(raw))
    {
      hide AuthFormat, SignedEnd, EndAt, KindAt, Holds, Uint16At, Uint32At, AuthAccepted, AuthParts, EnclaveReportSized,
        EnclaveReportBytes;
      GivenByOffsets(raw);
      HeadByOffsets(raw);
      HeldAuth(raw);
    }
  }

  lemma HeadAndReport(raw: seq<byte>)
    requires ReportFormat(raw)
    ensures raw[..ReportStart(raw)] + ReportOf(raw) == raw[..SignedEnd(raw)]
  {
  }

  lemma SizeWritten(raw: seq<byte>)
    requires SizeFormat(raw)
    ensures raw[SignedEnd(raw)..SignedEnd(raw) + 4] == Bytes32(|AuthBytes(raw)|)
  {
    var e := SignedEnd(raw);
    BytesOfWord32(raw[e..e + 4]);
  }

  lemma HeadWrittenBack(raw: seq<byte>)
    requires |raw| >= QUOTE_MIN_BYTE_LEN
    ensures HeaderSized(HeaderOf(raw))
    ensures raw[..ReportStart(raw)] ==
            HeaderBytes(HeaderOf(raw)) + (if HeaderOf(raw).version > 4 then BodyBytes(BodyOf(raw)) else [])
  {
    HeaderBytesOfAt(raw[..48]);
    BodyBytesOfAt(raw[48..54]);
    assert raw[..48] + raw[48..54] == raw[..54] && raw[..48] + [] == raw[..48];
  }

  // ---- The format, with every offset written out ----

  function KindAt(raw: seq<byte>): int
    requires |raw| >= 1020
  {
    if Uint16At(raw, 0) > 4 then Uint16At(raw, 48)
    else if Uint32At(raw, 4) == 0 then 1 else if Uint32At(raw, 4) == 0x81 then 2 else 0
  }

  // The end of the report, where the size of the authentication data stands.
  function EndAt(raw: seq<byte>): nat
    requires |raw| >= 1020
  {
    var start, k := if Uint16At(raw, 0) > 4 then 54 else 48, KindAt(raw);
    start + if k == 1 then 384 else if k == 2 then 584 else if k == 3 then 648 else if k == 4 then 885 else 0
  }

  // n bytes of authentication data from p on: version 3,
  predicate Auth3At(raw: seq<byte>, p: nat, n: nat)
    requires p + n <= |raw|
  {
    && n >= 578
    && var a := Uint16At(raw, p + 576);
       n >= a + 584 && n >= a + 584 + Uint32At(raw, p + a + 580)
  }

  // and version 4 and above, where the nested data must be filled exactly.
  predicate Auth4At(raw: seq<byte>, p: nat, n: nat)
    requires p + n <= |raw|
  {
    && n >= 134 && n >= 134 + Uint32At(raw, p + 130) && Uint32At(raw, p + 130) >= 450
    && var m, a := Uint32At(raw, p + 130), Uint16At(raw, p + 582);
       m >= a + 456 && m == a + 456 + Uint32At(raw, p + a + 586)
  }

  predicate AcceptedAt(raw: seq<byte>) {
    && |raw| >= 1020 && EndAt(raw) + 4 <= |raw| && EndAt(raw) + 4 + Uint32At(raw, EndAt(raw)) <= |raw|
    && (Uint16At(raw, 0) > 4 ==> 1 <= KindAt(raw) <= 4 && Uint32At(raw, 50) == EndAt(raw) - 54)
    && (Uint16At(raw, 0) == 3 ==> Auth3At(raw, EndAt(raw) + 4, Uint32At(raw, EndAt(raw))))
    && (Uint16At(raw, 0) > 3 ==> Auth4At(raw, EndAt(raw) + 4, Uint32At(raw, EndAt(raw))))
  }

  // The values of the getters, and the structure they come from: version 3,
  predicate Given3At(raw: seq<byte>, p: nat, n: nat, g: Given, v: V3AuthData)
    requires p + n <= |raw| && Auth3At(raw, p, n)
  {
    var a := Uint16At(raw, p + 576);
    var c := Uint32At(raw, p + a + 580);
    && g.quoteSignature == raw[p..p + 64] && g.attestKeyData == raw[p + 64..p + 128]
    && EnclaveReportSized(g.qeReport) && EnclaveReportBytes(g.qeReport) == raw[p + 128..p + 512]
    && g.qeReportSignature == raw[p + 512..p + 576] && g.qeAuthData == raw[p + 578..p + 578 + a]
    && g.certificationData == CertificationData(Uint16At(raw, p + a + 578), c, raw[p + a + 584..p + a + 584 + c])
    && v == V3AuthData(g.quoteSignature, g.attestKeyData, g.qeReport, g.qeReportSignature,
                       QeAuthData(a, g.qeAuthData), g.certificationData)
  }

  // and version 4 and above.
  predicate Given4At(raw: seq<byte>, p: nat, n: nat, g: Given, v: V4AuthData)
    requires p + n <= |raw| && Auth4At(raw, p, n)
  {
    var m, a := Uint32At(raw, p + 130), Uint16At(raw, p + 582);
    var c := Uint32At(raw, p + a + 586);
    && g.quoteSignature == raw[p..p + 64] && g.attestKeyData == raw[p + 64..p + 128]
    && EnclaveReportSized(g.qeReport) && EnclaveReportBytes(g.qeReport) == raw[p + 134..p + 518]
    && g.qeReportSignature == raw[p + 518..p + 582] && g.qeAuthData == raw[p + 584..p + 584 + a]
    && g.certificationData == CertificationData(Uint16At(raw, p + a + 584), c, raw[p + a + 590..p + a + 590 + c])
    && v == V4AuthData(g.quoteSignature, g.attestKeyData,
                       CertificationData(Uint16At(raw, p + 128), m, raw[p + 134..p + 134 + m]))
  }

  // What validate asks of an accepted quote.
  predicate ValidAt(raw: seq<byte>)
    requires AcceptedAt(raw)
  {
    var version, tee, p := Uint16At(raw, 0), Uint32At(raw, 4), EndAt(raw) + 4;
    && version in {3, 4, 5} && Uint16At(raw, 2) == 2 && tee in {0, 0x81}
    && raw[12..28] == [0x93, 0x9A, 0x72, 0x33, 0xF7, 0x9C, 0x4C, 0xA9, 0x94, 0x0A, 0x0D, 0xB3, 0x95, 0x7F, 0x06, 0x07]
    && (version == 3 ==> tee == 0 && Uint16At(raw, p + 578 + Uint16At(raw, p + 576)) in {1, 2, 3, 4, 5})
    && (version > 3 ==>
          Uint16At(raw, p + 128) == 6 && Uint16At(raw, p + 584 + Uint16At(raw, p + 582)) in {1, 2, 3, 4, 5})
    && (version == 5 ==> (tee == 0 <==> Uint16At(raw, 48) == 1))
  }

  lemma HeadByOffsets(raw: seq<byte>)
    requires |raw| >= 1020
    ensures var h := HeaderOf(raw);
            && h.version == Uint16At(raw, 0) && h.attestationKeyType == Uint16At(raw, 2)
            && h.teeType == Uint32At(raw, 4) && h.qeVendorId == raw[12..28]
    ensures BodyOf(raw).bodyType == Uint16At(raw, 48) && BodyOf(raw).size == Uint32At(raw, 50)
    ensures SignedEnd(raw) == EndAt(raw) && ReportKind(raw) == KindAt(raw)
  {
    assert raw[..48] == raw[0..48];
    WordsWithin(raw, 0, 48, 0);
    WordsWithin(raw, 0, 48, 2);
    WordsWithin(raw, 0, 48, 4);
    Within(raw, 0, 48, 12, 28);
    WordsWithin(raw, 48, 6, 0);
    WordsWithin(raw, 48, 6, 2);
  }

  lemma SizeByOffsets(raw: seq<byte>)
    ensures SizeFormat(raw) <==>
              && |raw| >= 1020 && EndAt(raw) + 4 <= |raw| && EndAt(raw) + 4 + Uint32At(raw, EndAt(raw)) <= |raw|
              && (Uint16At(raw, 0) > 4 ==> 1 <= KindAt(raw) <= 4 && Uint32At(raw, 50) == EndAt(raw) - 54)
    ensures SizeFormat(raw) ==> AuthBytes(raw) == raw[EndAt(raw) + 4..EndAt(raw) + 4 + Uint32At(raw, EndAt(raw))]
  {
    hide HeaderAt, BodyAt, Uint16At, Word32;
    if |raw| >= 1020 { HeadByOffsets(raw); }
  }

  // The parser accepts exactly these.
  lemma {:induction false} AcceptedByOffsets(raw: seq<byte>)
    ensures AuthFormat(raw) <==> AcceptedAt(raw)
    ensures AuthFormat(raw) ==> AuthBytes(raw) == raw[EndAt(raw) + 4..EndAt(raw) + 4 + Uint32At(raw, EndAt(raw))]
  {
    hide SizeFormat, EndAt, KindAt, HeaderAt, BodyAt, Auth3At, Auth4At, V3Format, V4Format, V4At, QEReportFormat, Uint16At,
      Uint32At;
    SizeByOffsets(raw);
    if |raw| >= 1020 { HeadByOffsets(raw); }
    if SizeFormat(raw) { AuthOnRaw(raw, EndAt(raw) + 4, Uint32At(raw, EndAt(raw))); }
  }

  lemma AuthOnRaw(raw: seq<byte>, p: nat, n: nat)
    requires p + n <= |raw|
    ensures V3Format(raw[p..p + n]) <==> Auth3At(raw, p, n)
    ensures V4Format(raw[p..p + n]) && QEReportFormat(V4At(raw[p..p + n]).certificationData.data) <==> Auth4At(raw, p, n)
  {
    hide V3Format, V4Format, QEReportFormat, V4At, Uint16At, Uint32At;
    var s := raw[p..p + n];
    V3ByOffsets(s);
    V4ByOffsets(s);
    if V4Format(s) { NestedByOffsets(s); }
    if n >= 578 { WordsWithin(raw, p, n, 576); WordsWithin(raw, p, n, Uint16At(s, 576) as int + 580); }
    if n >= 134 { WordsWithin(raw, p, n, 130); }
    if n >= 584 { WordsWithin(raw, p, n, 582); WordsWithin(raw, p, n, Uint16At(s, 582) as int + 586); }
  }

  lemma Given3OnRaw(raw: seq<byte>, p: nat, n: nat)
    requires p + n <= |raw| && Auth3At(raw, p, n) && V3Format(raw[p..p + n])
    ensures Given3At(raw, p, n, GivenByV3(V3At(raw[p..p + n])), V3At(raw[p..p + n]))
  {
    hide V3At, V3Format, EnclaveReportSized, EnclaveReportBytes, Uint16At, Uint32At;
    V3ByOffsets(raw[p..p + n]);
    var a: nat := Uint16At(raw, p + 576);
    V3PartsOnRaw(raw, p, n, a, Uint32At(raw, p + a + 580));
  }

  lemma Given4OnRaw(raw: seq<byte>, p: nat, n: nat)
    requires p + n <= |raw| && Auth4At(raw, p, n)
    requires V4Format(raw[p..p + n]) && QEReportFormat(V4At(raw[p..p + n]).certificationData.data)
    ensures Given4At(raw, p, n, GivenByV4(V4At(raw[p..p + n])), V4At(raw[p..p + n]))
  {
    hide V4At, V4Format, QEReportAt, QEReportFormat, EnclaveReportSized, EnclaveReportBytes, Uint16At, Uint32At;
    V4ByOffsets(raw[p..p + n]);
    NestedByOffsets(raw[p..p + n]);
    var a: nat := Uint16At(raw, p + 582);
    V4PartsOnRaw(raw, p, n, Uint32At(raw, p + 130), a, Uint32At(raw, p + a + 586));
  }

  lemma V3PartsOnRaw(raw: seq<byte>, p: nat, n: nat, a: nat, c: nat)
    requires p + n <= |raw| && n >= a + 584 + c
    ensures var s := raw[p..p + n];
            && Uint16At(s, 576) == Uint16At(raw, p + 576) && Uint32At(s, a + 580) == Uint32At(raw, p + a + 580)
            && Uint16At(s, a + 578) == Uint16At(raw, p + a + 578)
            && s[0..64] == raw[p..p + 64] && s[64..128] == raw[p + 64..p + 128]
            && s[128..512] == raw[p + 128..p + 512] && s[512..576] == raw[p + 512..p + 576]
            && s[578..578 + a] == raw[p + 578..p + 578 + a]
            && s[a + 584..a + 584 + c] == raw[p + a + 584..p + a + 584 + c]
  {
    hide Uint16At, Uint32At;
    WordsWithin(raw, p, n, 576);
    WordsWithin(raw, p, n, a + 580);
    WordsWithin(raw, p, n, a + 578);
    Within(raw, p, n, 0, 64);
    Within(raw, p, n, 64, 128);
    Within(raw, p, n, 128, 512);
    Within(raw, p, n, 512, 576);
    Within(raw, p, n, 578, 578 + a);
    Within(raw, p, n, a + 584, a + 584 + c);
  }

  lemma V4PartsOnRaw(raw: seq<byte>, p: nat, n: nat, m: nat, a: nat, c: nat)
    requires p + n <= |raw| && n >= 134 + m && m == a + 456 + c
    ensures var s := raw[p..p + n];
            && Uint32At(s, 130) == Uint32At(raw, p + 130) && Uint16At(s, 128) == Uint16At(raw, p + 128)
            && Uint16At(s, 582) == Uint16At(raw, p + 582) && Uint32At(s, a + 586) == Uint32At(raw, p + a + 586)
            && Uint16At(s, a + 584) == Uint16At(raw, p + a + 584)
            && s[0..64] == raw[p..p + 64] && s[64..128] == raw[p + 64..p + 128]
            && s[134..518] == raw[p + 134..p + 518] && s[518..582] == raw[p + 518..p + 582]
            && s[584..584 + a] == raw[p + 584..p + 584 + a] && s[134..134 + m] == raw[p + 134..p + 134 + m]
            && s[a + 590..a + 590 + c] == raw[p + a + 590..p + a + 590 + c]
  {
    hide Uint16At, Uint32At;
    WordsWithin(raw, p, n, 130);
    WordsWithin(raw, p, n, 128);
    WordsWithin(raw, p, n, 582);
    WordsWithin(raw, p, n, a + 586);
    WordsWithin(raw, p, n, a + 584);
    Within(raw, p, n, 0, 64);
    Within(raw, p, n, 64, 128);
    Within(raw, p, n, 134, 518);
    Within(raw, p, n, 518, 582);
    Within(raw, p, n, 584, 584 + a);
    Within(raw, p, n, 134, 134 + m);
    Within(raw, p, n, a + 590, a + 590 + c);
  }

  // The extended reports begin like the plain one.
  lemma TDReportHead(r: seq<byte>)
    requires |r| >= 584
    ensures var h := TDReport10At(r[..584]);
            h.teeTcbSvn == r[0..16] && h.mrSignerSeam == r[64..112] && h.seamAttributes == r[112..120]
    ensures |r| == 584 ==> r[..584] == r
    ensures |r| == 648 ==> TDReport15At(r).base == TDReport10At(r[..584]) && TDReport15At(r).teeTcbSvn2 == r[584..600]
    ensures |r| == 885 ==>
              TDReport15ExAt(r).base.base == TDReport10At(r[..584]) && TDReport15ExAt(r).base.teeTcbSvn2 == r[584..600]
  {
    assert r[..584] == r[0..584];
    if |r| == 885 {
      assert r[0..648][0..584] == r[0..584];
      assert r[0..648][584..600] == r[584..600];
    }
  }
}
