// The fixed parts of a quote: their layout, reading each from a cursor, and
// writing the reports back.
module QuoteStructures {
  import opened ByteOperands
  import opened Layout

  // The quote header.
  datatype Header = Header(version: uint16, attestationKeyType: uint16, teeType: uint32, qeSvn: uint16,
      pceSvn: uint16, qeVendorId: seq<byte>, userData: seq<byte>)

  predicate HeaderSized(v: Header) {
    && |v.qeVendorId| == 16 && |v.userData| == 20
  }

  function HeaderBytes(v: Header): (s: seq<byte>)
    requires HeaderSized(v)
    ensures |s| == 48
  {
    Bytes16(v.version) + Bytes16(v.attestationKeyType) + Bytes32(v.teeType) + Bytes16(v.qeSvn) +
    Bytes16(v.pceSvn) + v.qeVendorId + v.userData
  }

  function HeaderAt(s: seq<byte>): (v: Header)
    requires |s| == 48
    ensures HeaderSized(v)
  {
    Header(Word16(s[0..2]), Word16(s[2..4]), Word32(s[4..8]), Word16(s[8..10]), Word16(s[10..12]), s[12..28],
      s[28..48])
  }

  lemma HeaderBytesOfAt(s: seq<byte>)
    requires |s| == 48
    ensures HeaderBytes(HeaderAt(s)) == s
  {
    BytesOfWord16(s[0..2]);
    BytesOfWord16(s[2..4]);
    BytesOfWord32(s[4..8]);
    BytesOfWord16(s[8..10]);
    BytesOfWord16(s[10..12]);
    assert s[0..48] == s;
  }

  lemma HeaderAtOfBytes(v: Header)
    requires HeaderSized(v)
    ensures HeaderAt(HeaderBytes(v)) == v
  {
    var s := HeaderBytes(v);
    assert s[0..2] == Bytes16(v.version);
    assert s[2..4] == Bytes16(v.attestationKeyType);
    assert s[4..8] == Bytes32(v.teeType);
    assert s[8..10] == Bytes16(v.qeSvn);
    assert s[10..12] == Bytes16(v.pceSvn);
    WordOfBytes16(v.version);
    WordOfBytes16(v.attestationKeyType);
    WordOfBytes32(v.teeType);
    WordOfBytes16(v.qeSvn);
    WordOfBytes16(v.pceSvn);
  }

  // Header, each field by name at its offset from the cursor.
  lemma HeaderIn(buf: seq<byte>, from: nat)
    requires from + 48 <= |buf|
    ensures var v := HeaderAt(buf[from..from + 48]);
            && v.version == Word16(buf[from..from + 2]) && v.attestationKeyType == Word16(buf[from + 2..from + 4])
            && v.teeType == Word32(buf[from + 4..from + 8]) && v.qeSvn == Word16(buf[from + 8..from + 10])
            && v.pceSvn == Word16(buf[from + 10..from + 12]) && v.qeVendorId == buf[from + 12..from + 28]
            && v.userData == buf[from + 28..from + 48]
  {
    Within(buf, from, 48, 0, 2);
    Within(buf, from, 48, 2, 4);
    Within(buf, from, 48, 4, 8);
    Within(buf, from, 48, 8, 10);
    Within(buf, from, 48, 10, 12);
    Within(buf, from, 48, 12, 28);
    Within(buf, from, 48, 28, 48);
  }

  // Header::insert.
  method InsertHeader(buf: seq<byte>, from0: nat, end: nat) returns (ok: bool, from: nat, v: Header)
    requires from0 <= end <= |buf|
    ensures from0 <= from <= end
    ensures ok <==> from0 + 48 <= end
    ensures ok ==> from == from0 + 48 && v == HeaderAt(buf[from0..from])
  {
    from, v := from0, ZeroHeader();
    var version;
    ok, from, version := ReadUint16(buf, from, end);
    if !ok { return; }
    var attestationKeyType;
    ok, from, attestationKeyType := ReadUint16(buf, from, end);
    if !ok { return; }
    var teeType;
    ok, from, teeType := ReadUint32(buf, from, end);
    if !ok { return; }
    var qeSvn;
    ok, from, qeSvn := ReadUint16(buf, from, end);
    if !ok { return; }
    var pceSvn;
    ok, from, pceSvn := ReadUint16(buf, from, end);
    if !ok { return; }
    var qeVendorId;
    ok, from, qeVendorId := ReadArray(buf, from, 16, end);
    if !ok { return; }
    var userData;
    ok, from, userData := ReadArray(buf, from, 20, end);
    if !ok { return; }
    HeaderIn(buf, from0);
    v := Header(version, attestationKeyType, teeType, qeSvn, pceSvn, qeVendorId, userData);
  }

  // A value-initialised Header.
  function ZeroHeader(): (v: Header)
    ensures HeaderSized(v)
  {
    Header(0, 0, 0, 0, 0, Zeros(16), Zeros(20))
  }

  // The body descriptor of version 5.
  datatype Body = Body(bodyType: uint16, size: uint32)

  function BodyBytes(v: Body): (s: seq<byte>)
    ensures |s| == 6
  {
    Bytes16(v.bodyType) + Bytes32(v.size)
  }

  function BodyAt(s: seq<byte>): (v: Body)
    requires |s| == 6
  {
    Body(Word16(s[0..2]), Word32(s[2..6]))
  }

  lemma BodyBytesOfAt(s: seq<byte>)
    requires |s| == 6
    ensures BodyBytes(BodyAt(s)) == s
  {
    BytesOfWord16(s[0..2]);
    BytesOfWord32(s[2..6]);
    assert s[0..6] == s;
  }

  lemma BodyAtOfBytes(v: Body)
    ensures BodyAt(BodyBytes(v)) == v
  {
    var s := BodyBytes(v);
    assert s[0..2] == Bytes16(v.bodyType);
    assert s[2..6] == Bytes32(v.size);
    WordOfBytes16(v.bodyType);
    WordOfBytes32(v.size);
  }

  // Body, each field by name at its offset from the cursor.
  lemma BodyIn(buf: seq<byte>, from: nat)
    requires from + 6 <= |buf|
    ensures var v := BodyAt(buf[from..from + 6]);
            && v.bodyType == Word16(buf[from..from + 2]) && v.size == Word32(buf[from + 2..from + 6])
  {
    Within(buf, from, 6, 0, 2);
    Within(buf, from, 6, 2, 6);
  }

  // Body::insert.
  method InsertBody(buf: seq<byte>, from0: nat, end: nat) returns (ok: bool, from: nat, v: Body)
    requires from0 <= end <= |buf|
    ensures from0 <= from <= end
    ensures ok <==> from0 + 6 <= end
    ensures ok ==> from == from0 + 6 && v == BodyAt(buf[from0..from])
  {
    from, v := from0, ZeroBody();
    var bodyType;
    ok, from, bodyType := ReadUint16(buf, from, end);
    if !ok { return; }
    var size;
    ok, from, size := ReadUint32(buf, from, end);
    if !ok { return; }
    BodyIn(buf, from0);
    v := Body(bodyType, size);
  }

  // A value-initialised Body.
  function ZeroBody(): (v: Body)
  {
    Body(0, 0)
  }

  // The SGX enclave report.
  datatype EnclaveReport = EnclaveReport(cpuSvn: seq<byte>, miscSelect: uint32, reserved1: seq<byte>,
      attributes: seq<byte>, mrEnclave: seq<byte>, reserved2: seq<byte>, mrSigner: seq<byte>,
      reserved3: seq<byte>, isvProdID: uint16, isvSvn: uint16, reserved4: seq<byte>, reportData: seq<byte>)

  predicate EnclaveReportSized(v: EnclaveReport) {
    && |v.cpuSvn| == 16 && |v.reserved1| == 28 && |v.attributes| == 16 && |v.mrEnclave| == 32
    && |v.reserved2| == 32 && |v.mrSigner| == 32 && |v.reserved3| == 96 && |v.reserved4| == 60
    && |v.reportData| == 64
  }

  function EnclaveReportBytes(v: EnclaveReport): (s: seq<byte>)
    requires EnclaveReportSized(v)
    ensures |s| == 384
  {
    v.cpuSvn + Bytes32(v.miscSelect) + v.reserved1 + v.attributes + v.mrEnclave + v.reserved2 + v.mrSigner +
    v.reserved3 + Bytes16(v.isvProdID) + Bytes16(v.isvSvn) + v.reserved4 + v.reportData
  }

  function EnclaveReportAt(s: seq<byte>): (v: EnclaveReport)
    requires |s| == 384
    ensures EnclaveReportSized(v)
  {
    EnclaveReport(s[0..16], Word32(s[16..20]), s[20..48], s[48..64], s[64..96], s[96..128], s[128..160],
      s[160..256], Word16(s[256..258]), Word16(s[258..260]), s[260..320], s[320..384])
  }

  lemma EnclaveReportBytesOfAt(s: seq<byte>)
    requires |s| == 384
    ensures EnclaveReportBytes(EnclaveReportAt(s)) == s
  {
    BytesOfWord32(s[16..20]);
    BytesOfWord16(s[256..258]);
    BytesOfWord16(s[258..260]);
    assert s[0..384] == s;
  }

  lemma EnclaveReportAtOfBytes(v: EnclaveReport)
    requires EnclaveReportSized(v)
    ensures EnclaveReportAt(EnclaveReportBytes(v)) == v
  {
    var s := EnclaveReportBytes(v);
    assert s[16..20] == Bytes32(v.miscSelect);
    assert s[256..258] == Bytes16(v.isvProdID);
    assert s[258..260] == Bytes16(v.isvSvn);
    WordOfBytes32(v.miscSelect);
    WordOfBytes16(v.isvProdID);
    WordOfBytes16(v.isvSvn);
  }

  // EnclaveReport, each field by name at its offset from the cursor.
  lemma EnclaveReportIn(buf: seq<byte>, from: nat)
    requires from + 384 <= |buf|
    ensures var v := EnclaveReportAt(buf[from..from + 384]);
            && v.cpuSvn == buf[from..from + 16] && v.miscSelect == Word32(buf[from + 16..from + 20])
            && v.reserved1 == buf[from + 20..from + 48] && v.attributes == buf[from + 48..from + 64]
            && v.mrEnclave == buf[from + 64..from + 96] && v.reserved2 == buf[from + 96..from + 128]
            && v.mrSigner == buf[from + 128..from + 160] && v.reserved3 == buf[from + 160..from + 256]
            && v.isvProdID == Word16(buf[from + 256..from + 258]) && v.isvSvn == Word16(buf[from + 258..from + 260])
            && v.reserved4 == buf[from + 260..from + 320] && v.reportData == buf[from + 320..from + 384]
  {
    Within(buf, from, 384, 0, 16);
    Within(buf, from, 384, 16, 20);
    Within(buf, from, 384, 20, 48);
    Within(buf, from, 384, 48, 64);
    Within(buf, from, 384, 64, 96);
    Within(buf, from, 384, 96, 128);
    Within(buf, from, 384, 128, 160);
    Within(buf, from, 384, 160, 256);
    Within(buf, from, 384, 256, 258);
    Within(buf, from, 384, 258, 260);
    Within(buf, from, 384, 260, 320);
    Within(buf, from, 384, 320, 384);
  }

  // EnclaveReport::insert.
  method InsertEnclaveReport(buf: seq<byte>, from0: nat, end: nat) returns (ok: bool, from: nat, v: EnclaveReport)
    requires from0 <= end <= |buf|
    ensures from0 <= from <= end
    ensures ok <==> from0 + 384 <= end
    ensures ok ==> from == from0 + 384 && v == EnclaveReportAt(buf[from0..from])
  {
    from, v := from0, ZeroEnclaveReport();
    var cpuSvn;
    ok, from, cpuSvn := ReadArray(buf, from, 16, end);
    if !ok { return; }
    var miscSelect;
    ok, from, miscSelect := ReadUint32(buf, from, end);
    if !ok { return; }
    var reserved1;
    ok, from, reserved1 := ReadArray(buf, from, 28, end);
    if !ok { return; }
    var attributes;
    ok, from, attributes := ReadArray(buf, from, 16, end);
    if !ok { return; }
    var mrEnclave;
    ok, from, mrEnclave := ReadArray(buf, from, 32, end);
    if !ok { return; }
    var reserved2;
    ok, from, reserved2 := ReadArray(buf, from, 32, end);
    if !ok { return; }
    var mrSigner;
    ok, from, mrSigner := ReadArray(buf, from, 32, end);
    if !ok { return; }
    var reserved3;
    ok, from, reserved3 := ReadArray(buf, from, 96, end);
    if !ok { return; }
    var isvProdID;
    ok, from, isvProdID := ReadUint16(buf, from, end);
    if !ok { return; }
    var isvSvn;
    ok, from, isvSvn := ReadUint16(buf, from, end);
    if !ok { return; }
    var reserved4;
    ok, from, reserved4 := ReadArray(buf, from, 60, end);
    if !ok { return; }
    var reportData;
    ok, from, reportData := ReadArray(buf, from, 64, end);
    if !ok { return; }
    EnclaveReportIn(buf, from0);
    v := EnclaveReport(cpuSvn, miscSelect, reserved1, attributes, mrEnclave, reserved2, mrSigner, reserved3,
      isvProdID, isvSvn, reserved4, reportData);
  }

  // A value-initialised EnclaveReport.
  function ZeroEnclaveReport(): (v: EnclaveReport)
    ensures EnclaveReportSized(v)
  {
    EnclaveReport(Zeros(16), 0, Zeros(28), Zeros(16), Zeros(32), Zeros(32), Zeros(32), Zeros(96), 0, 0,
      Zeros(60), Zeros(64))
  }

  // EnclaveReport::rawBlob.
  method RawBlobEnclaveReport(v: EnclaveReport) returns (ret: seq<byte>)
    requires EnclaveReportSized(v)
    ensures ret == EnclaveReportBytes(v)
  {
    var to;
    ret := Zeros(384);
    ret, to := Put(ret, 0, v.cpuSvn);
    assert ret[..to] == v.cpuSvn;
    WriteIsLittleEndian32(v.miscSelect);
    ret, to := Put(ret, to, ToArray32(SwapBytes32(v.miscSelect)));
    ret, to := Put(ret, to, v.reserved1);
    ret, to := Put(ret, to, v.attributes);
    ret, to := Put(ret, to, v.mrEnclave);
    ret, to := Put(ret, to, v.reserved2);
    ret, to := Put(ret, to, v.mrSigner);
    ret, to := Put(ret, to, v.reserved3);
    WriteIsLittleEndian16(v.isvProdID);
    ret, to := Put(ret, to, ToArray16(SwapBytes16(v.isvProdID)));
    WriteIsLittleEndian16(v.isvSvn);
    ret, to := Put(ret, to, ToArray16(SwapBytes16(v.isvSvn)));
    ret, to := Put(ret, to, v.reserved4);
    ret, to := Put(ret, to, v.reportData);
    assert ret == ret[..384];
  }

  // The TD report of TDX 1.0.
  datatype TDReport10 = TDReport10(teeTcbSvn: seq<byte>, mrSeam: seq<byte>, mrSignerSeam: seq<byte>,
      seamAttributes: seq<byte>, tdAttributes: seq<byte>, xFAM: seq<byte>, mrTd: seq<byte>,
      mrConfigId: seq<byte>, mrOwner: seq<byte>, mrOwnerConfig: seq<byte>, rtMr0: seq<byte>, rtMr1: seq<byte>,
      rtMr2: seq<byte>, rtMr3: seq<byte>, reportData: seq<byte>)

  predicate TDReport10Sized(v: TDReport10) {
    && |v.teeTcbSvn| == 16 && |v.mrSeam| == 48 && |v.mrSignerSeam| == 48 && |v.seamAttributes| == 8
    && |v.tdAttributes| == 8 && |v.xFAM| == 8 && |v.mrTd| == 48 && |v.mrConfigId| == 48 && |v.mrOwner| == 48
    && |v.mrOwnerConfig| == 48 && |v.rtMr0| == 48 && |v.rtMr1| == 48 && |v.rtMr2| == 48 && |v.rtMr3| == 48
    && |v.reportData| == 64
  }

  function TDReport10Bytes(v: TDReport10): (s: seq<byte>)
    requires TDReport10Sized(v)
    ensures |s| == 584
  {
    v.teeTcbSvn + v.mrSeam + v.mrSignerSeam + v.seamAttributes + v.tdAttributes + v.xFAM + v.mrTd +
    v.mrConfigId + v.mrOwner + v.mrOwnerConfig + v.rtMr0 + v.rtMr1 + v.rtMr2 + v.rtMr3 + v.reportData
  }

  function TDReport10At(s: seq<byte>): (v: TDReport10)
    requires |s| == 584
    ensures TDReport10Sized(v)
  {
    TDReport10(s[0..16], s[16..64], s[64..112], s[112..120], s[120..128], s[128..136], s[136..184], s[184..232],
      s[232..280], s[280..328], s[328..376], s[376..424], s[424..472], s[472..520], s[520..584])
  }

  lemma TDReport10BytesOfAt(s: seq<byte>)
    requires |s| == 584
    ensures TDReport10Bytes(TDReport10At(s)) == s
  {
    assert s[0..584] == s;
  }

  lemma TDReport10AtOfBytes(v: TDReport10)
    requires TDReport10Sized(v)
    ensures TDReport10At(TDReport10Bytes(v)) == v
  {
  }

  // TDReport10, each field by name at its offset from the cursor.
  lemma TDReport10In(buf: seq<byte>, from: nat)
    requires from + 584 <= |buf|
    ensures var v := TDReport10At(buf[from..from + 584]);
            && v.teeTcbSvn == buf[from..from + 16] && v.mrSeam == buf[from + 16..from + 64]
            && v.mrSignerSeam == buf[from + 64..from + 112] && v.seamAttributes == buf[from + 112..from + 120]
            && v.tdAttributes == buf[from + 120..from + 128] && v.xFAM == buf[from + 128..from + 136]
            && v.mrTd == buf[from + 136..from + 184] && v.mrConfigId == buf[from + 184..from + 232]
            && v.mrOwner == buf[from + 232..from + 280] && v.mrOwnerConfig == buf[from + 280..from + 328]
            && v.rtMr0 == buf[from + 328..from + 376] && v.rtMr1 == buf[from + 376..from + 424]
            && v.rtMr2 == buf[from + 424..from + 472] && v.rtMr3 == buf[from + 472..from + 520]
            && v.reportData == buf[from + 520..from + 584]
  {
    Within(buf, from, 584, 0, 16);
    Within(buf, from, 584, 16, 64);
    Within(buf, from, 584, 64, 112);
    Within(buf, from, 584, 112, 120);
    Within(buf, from, 584, 120, 128);
    Within(buf, from, 584, 128, 136);
    Within(buf, from, 584, 136, 184);
    Within(buf, from, 584, 184, 232);
    Within(buf, from, 584, 232, 280);
    Within(buf, from, 584, 280, 328);
    Within(buf, from, 584, 328, 376);
    Within(buf, from, 584, 376, 424);
    Within(buf, from, 584, 424, 472);
    Within(buf, from, 584, 472, 520);
    Within(buf, from, 584, 520, 584);
  }

  // TDReport10::insert.
  method InsertTDReport10(buf: seq<byte>, from0: nat, end: nat) returns (ok: bool, from: nat, v: TDReport10)
    requires from0 <= end <= |buf|
    ensures from0 <= from <= end
    ensures ok <==> from0 + 584 <= end
    ensures ok ==> from == from0 + 584 && v == TDReport10At(buf[from0..from])
  {
    from, v := from0, ZeroTDReport10();
    var teeTcbSvn;
    ok, from, teeTcbSvn := ReadArray(buf, from, 16, end);
    if !ok { return; }
    var mrSeam;
    ok, from, mrSeam := ReadArray(buf, from, 48, end);
    if !ok { return; }
    var mrSignerSeam;
    ok, from, mrSignerSeam := ReadArray(buf, from, 48, end);
    if !ok { return; }
    var seamAttributes;
    ok, from, seamAttributes := ReadArray(buf, from, 8, end);
    if !ok { return; }
    var tdAttributes;
    ok, from, tdAttributes := ReadArray(buf, from, 8, end);
    if !ok { return; }
    var xFAM;
    ok, from, xFAM := ReadArray(buf, from, 8, end);
    if !ok { return; }
    var mrTd;
    ok, from, mrTd := ReadArray(buf, from, 48, end);
    if !ok { return; }
    var mrConfigId;
    ok, from, mrConfigId := ReadArray(buf, from, 48, end);
    if !ok { return; }
    var mrOwner;
    ok, from, mrOwner := ReadArray(buf, from, 48, end);
    if !ok { return; }
    var mrOwnerConfig;
    ok, from, mrOwnerConfig := ReadArray(buf, from, 48, end);
    if !ok { return; }
    var rtMr0;
    ok, from, rtMr0 := ReadArray(buf, from, 48, end);
    if !ok { return; }
    var rtMr1;
    ok, from, rtMr1 := ReadArray(buf, from, 48, end);
    if !ok { return; }
    var rtMr2;
    ok, from, rtMr2 := ReadArray(buf, from, 48, end);
    if !ok { return; }
    var rtMr3;
    ok, from, rtMr3 := ReadArray(buf, from, 48, end);
    if !ok { return; }
    var reportData;
    ok, from, reportData := ReadArray(buf, from, 64, end);
    if !ok { return; }
    TDReport10In(buf, from0);
    v := TDReport10(teeTcbSvn, mrSeam, mrSignerSeam, seamAttributes, tdAttributes, xFAM, mrTd, mrConfigId,
      mrOwner, mrOwnerConfig, rtMr0, rtMr1, rtMr2, rtMr3, reportData);
  }

  // A value-initialised TDReport10.
  function ZeroTDReport10(): (v: TDReport10)
    ensures TDReport10Sized(v)
  {
    TDReport10(Zeros(16), Zeros(48), Zeros(48), Zeros(8), Zeros(8), Zeros(8), Zeros(48), Zeros(48), Zeros(48),
      Zeros(48), Zeros(48), Zeros(48), Zeros(48), Zeros(48), Zeros(64))
  }

  // TDReport10::rawBlob.
  method RawBlobTDReport10(v: TDReport10) returns (ret: seq<byte>)
    requires TDReport10Sized(v)
    ensures ret == TDReport10Bytes(v)
  {
    var to;
    ret := Zeros(584);
    ret, to := Put(ret, 0, v.teeTcbSvn);
    assert ret[..to] == v.teeTcbSvn;
    ret, to := Put(ret, to, v.mrSeam);
    ret, to := Put(ret, to, v.mrSignerSeam);
    ret, to := Put(ret, to, v.seamAttributes);
    ret, to := Put(ret, to, v.tdAttributes);
    ret, to := Put(ret, to, v.xFAM);
    ret, to := Put(ret, to, v.mrTd);
    ret, to := Put(ret, to, v.mrConfigId);
    ret, to := Put(ret, to, v.mrOwner);
    ret, to := Put(ret, to, v.mrOwnerConfig);
    ret, to := Put(ret, to, v.rtMr0);
    ret, to := Put(ret, to, v.rtMr1);
    ret, to := Put(ret, to, v.rtMr2);
    ret, to := Put(ret, to, v.rtMr3);
    ret, to := Put(ret, to, v.reportData);
    assert ret == ret[..584];
  }

  // The TD report of TDX 1.5 extends that of 1.0.
  datatype TDReport15 = TDReport15(base: TDReport10, teeTcbSvn2: seq<byte>, mrServiceTd: seq<byte>)

  predicate TDReport15Sized(v: TDReport15) {
    && TDReport10Sized(v.base) && |v.teeTcbSvn2| == 16 && |v.mrServiceTd| == 48
  }

  function TDReport15Bytes(v: TDReport15): (s: seq<byte>)
    requires TDReport15Sized(v)
    ensures |s| == 648
  {
    TDReport10Bytes(v.base) + v.teeTcbSvn2 + v.mrServiceTd
  }

  function TDReport15At(s: seq<byte>): (v: TDReport15)
    requires |s| == 648
    ensures TDReport15Sized(v)
  {
    TDReport15(TDReport10At(s[0..584]), s[584..600], s[600..648])
  }

  lemma TDReport15BytesOfAt(s: seq<byte>)
    requires |s| == 648
    ensures TDReport15Bytes(TDReport15At(s)) == s
  {
    TDReport10BytesOfAt(s[0..584]);
    assert s[0..648] == s;
  }

  lemma TDReport15AtOfBytes(v: TDReport15)
    requires TDReport15Sized(v)
    ensures TDReport15At(TDReport15Bytes(v)) == v
  {
    TDReport10AtOfBytes(v.base);
  }

  // TDReport15, each field by name at its offset from the cursor.
  lemma TDReport15In(buf: seq<byte>, from: nat)
    requires from + 648 <= |buf|
    ensures var v := TDReport15At(buf[from..from + 648]);
            && v.base == TDReport10At(buf[from..from + 584]) && v.teeTcbSvn2 == buf[from + 584..from + 600]
            && v.mrServiceTd == buf[from + 600..from + 648]
  {
    Within(buf, from, 648, 0, 584);
    Within(buf, from, 648, 584, 600);
    Within(buf, from, 648, 600, 648);
  }

  // TDReport15::insert.
  method InsertTDReport15(buf: seq<byte>, from0: nat, end: nat) returns (ok: bool, from: nat, v: TDReport15)
    requires from0 <= end <= |buf|
    ensures from0 <= from <= end
    ensures ok <==> from0 + 648 <= end
    ensures ok ==> from == from0 + 648 && v == TDReport15At(buf[from0..from])
  {
    from, v := from0, ZeroTDReport15();
    var base;
    ok, from, base := InsertTDReport10(buf, from, end);
    if !ok { return; }
    var teeTcbSvn2;
    ok, from, teeTcbSvn2 := ReadArray(buf, from, 16, end);
    if !ok { return; }
    var mrServiceTd;
    ok, from, mrServiceTd := ReadArray(buf, from, 48, end);
    if !ok { return; }
    TDReport15In(buf, from0);
    v := TDReport15(base, teeTcbSvn2, mrServiceTd);
  }

  // A value-initialised TDReport15.
  function ZeroTDReport15(): (v: TDReport15)
    ensures TDReport15Sized(v)
  {
    TDReport15(ZeroTDReport10(), Zeros(16), Zeros(48))
  }

  // TDReport15::rawBlob.
  method RawBlobTDReport15(v: TDReport15) returns (ret: seq<byte>)
    requires TDReport15Sized(v)
    ensures ret == TDReport15Bytes(v)
  {
    var to;
    ret := Zeros(648);
    var head := RawBlobTDReport10(v.base);
    ret, to := Put(ret, 0, head);
    assert ret[..to] == TDReport10Bytes(v.base);
    ret, to := Put(ret, to, v.teeTcbSvn2);
    ret, to := Put(ret, to, v.mrServiceTd);
    assert ret == ret[..648];
  }

  // The extended TD report of TDX 1.5.
  datatype TDReport15Ex = TDReport15Ex(base: TDReport15, vmid: seq<byte>, tdId: seq<byte>, devInfo: seq<byte>,
      initServTdHash: seq<byte>, initServTdAttributes: seq<byte>, initCpuSvn: seq<byte>,
      initTeeTcbSvn: seq<byte>, initTeeFmspc: seq<byte>, curServTdHash: seq<byte>,
      curServTdAttributes: seq<byte>)

  predicate TDReport15ExSized(v: TDReport15Ex) {
    && TDReport15Sized(v.base) && |v.vmid| == 1 && |v.tdId| == 32 && |v.devInfo| == 48
    && |v.initServTdHash| == 48 && |v.initServTdAttributes| == 8 && |v.initCpuSvn| == 16
    && |v.initTeeTcbSvn| == 16 && |v.initTeeFmspc| == 12 && |v.curServTdHash| == 48
    && |v.curServTdAttributes| == 8
  }

  function TDReport15ExBytes(v: TDReport15Ex): (s: seq<byte>)
    requires TDReport15ExSized(v)
    ensures |s| == 885
  {
    TDReport15Bytes(v.base) + v.vmid + v.tdId + v.devInfo + v.initServTdHash + v.initServTdAttributes +
    v.initCpuSvn + v.initTeeTcbSvn + v.initTeeFmspc + v.curServTdHash + v.curServTdAttributes
  }

  function TDReport15ExAt(s: seq<byte>): (v: TDReport15Ex)
    requires |s| == 885
    ensures TDReport15ExSized(v)
  {
    TDReport15Ex(TDReport15At(s[0..648]), s[648..649], s[649..681], s[681..729], s[729..777], s[777..785],
      s[785..801], s[801..817], s[817..829], s[829..877], s[877..885])
  }

  lemma TDReport15ExBytesOfAt(s: seq<byte>)
    requires |s| == 885
    ensures TDReport15ExBytes(TDReport15ExAt(s)) == s
  {
    TDReport15BytesOfAt(s[0..648]);
    assert s[0..885] == s;
  }

  lemma TDReport15ExAtOfBytes(v: TDReport15Ex)
    requires TDReport15ExSized(v)
    ensures TDReport15ExAt(TDReport15ExBytes(v)) == v
  {
    TDReport15AtOfBytes(v.base);
    assert TDReport15ExBytes(v)[0..648] == TDReport15Bytes(v.base);
  }

  // TDReport15Ex, each field by name at its offset from the cursor.
  lemma TDReport15ExIn(buf: seq<byte>, from: nat)
    requires from + 885 <= |buf|
    ensures var v := TDReport15ExAt(buf[from..from + 885]);
            && v.base == TDReport15At(buf[from..from + 648]) && v.vmid == buf[from + 648..from + 649]
            && v.tdId == buf[from + 649..from + 681] && v.devInfo == buf[from + 681..from + 729]
            && v.initServTdHash == buf[from + 729..from + 777]
            && v.initServTdAttributes == buf[from + 777..from + 785] && v.initCpuSvn == buf[from + 785..from + 801]
            && v.initTeeTcbSvn == buf[from + 801..from + 817] && v.initTeeFmspc == buf[from + 817..from + 829]
            && v.curServTdHash == buf[from + 829..from + 877] && v.curServTdAttributes == buf[from + 877..from + 885]
  {
    Within(buf, from, 885, 0, 648);
    Within(buf, from, 885, 648, 649);
    Within(buf, from, 885, 649, 681);
    Within(buf, from, 885, 681, 729);
    Within(buf, from, 885, 729, 777);
    Within(buf, from, 885, 777, 785);
    Within(buf, from, 885, 785, 801);
    Within(buf, from, 885, 801, 817);
    Within(buf, from, 885, 817, 829);
    Within(buf, from, 885, 829, 877);
    Within(buf, from, 885, 877, 885);
  }

  // TDReport15Ex::insert.
  method InsertTDReport15Ex(buf: seq<byte>, from0: nat, end: nat) returns (ok: bool, from: nat, v: TDReport15Ex)
    requires from0 <= end <= |buf|
    ensures from0 <= from <= end
    ensures ok <==> from0 + 885 <= end
    ensures ok ==> from == from0 + 885 && v == TDReport15ExAt(buf[from0..from])
  {
    from, v := from0, ZeroTDReport15Ex();
    var base;
    ok, from, base := InsertTDReport15(buf, from, end);
    if !ok { return; }
    var vmid;
    ok, from, vmid := ReadArray(buf, from, 1, end);
    if !ok { return; }
    var tdId;
    ok, from, tdId := ReadArray(buf, from, 32, end);
    if !ok { return; }
    var devInfo;
    ok, from, devInfo := ReadArray(buf, from, 48, end);
    if !ok { return; }
    var initServTdHash;
    ok, from, initServTdHash := ReadArray(buf, from, 48, end);
    if !ok { return; }
    var initServTdAttributes;
    ok, from, initServTdAttributes := ReadArray(buf, from, 8, end);
    if !ok { return; }
    var initCpuSvn;
    ok, from, initCpuSvn := ReadArray(buf, from, 16, end);
    if !ok { return; }
    var initTeeTcbSvn;
    ok, from, initTeeTcbSvn := ReadArray(buf, from, 16, end);
    if !ok { return; }
    var initTeeFmspc;
    ok, from, initTeeFmspc := ReadArray(buf, from, 12, end);
    if !ok { return; }
    var curServTdHash;
    ok, from, curServTdHash := ReadArray(buf, from, 48, end);
    if !ok { return; }
    var curServTdAttributes;
    ok, from, curServTdAttributes := ReadArray(buf, from, 8, end);
    if !ok { return; }
    TDReport15ExIn(buf, from0);
    v := TDReport15Ex(base, vmid, tdId, devInfo, initServTdHash, initServTdAttributes, initCpuSvn,
      initTeeTcbSvn, initTeeFmspc, curServTdHash, curServTdAttributes);
  }

  // A value-initialised TDReport15Ex.
  function ZeroTDReport15Ex(): (v: TDReport15Ex)
    ensures TDReport15ExSized(v)
  {
    TDReport15Ex(ZeroTDReport15(), Zeros(1), Zeros(32), Zeros(48), Zeros(48), Zeros(8), Zeros(16), Zeros(16),
      Zeros(12), Zeros(48), Zeros(8))
  }

  // TDReport15Ex::rawBlob.
  method RawBlobTDReport15Ex(v: TDReport15Ex) returns (ret: seq<byte>)
    requires TDReport15ExSized(v)
    ensures ret == TDReport15ExBytes(v)
  {
    var to;
    ret := Zeros(885);
    var head := RawBlobTDReport15(v.base);
    ret, to := Put(ret, 0, head);
    assert ret[..to] == TDReport15Bytes(v.base);
    ret, to := Put(ret, to, v.vmid);
    ret, to := Put(ret, to, v.tdId);
    ret, to := Put(ret, to, v.devInfo);
    ret, to := Put(ret, to, v.initServTdHash);
    ret, to := Put(ret, to, v.initServTdAttributes);
    ret, to := Put(ret, to, v.initCpuSvn);
    ret, to := Put(ret, to, v.initTeeTcbSvn);
    ret, to := Put(ret, to, v.initTeeFmspc);
    ret, to := Put(ret, to, v.curServTdHash);
    ret, to := Put(ret, to, v.curServTdAttributes);
    assert ret == ret[..885];
  }
}
