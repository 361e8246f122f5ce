// The variable-length parts of a quote: length-prefixed data, nested, and read
// with look-ahead at a length followed by a step back to the structure's start.
// In each contract s is what lies between the cursor and its end.
module AuthData {
  import opened ByteOperands
  import opened Layout
  import opened QuoteStructures

  datatype QeAuthData = QeAuthData(parsedDataSize: uint16, data: seq<byte>) {
    predicate Consistent() {
      |data| == parsedDataSize
    }
    function Bytes(): seq<byte> {
      Bytes16(parsedDataSize) + data
    }
  }

  datatype CertificationData = CertificationData(kind: uint16, parsedDataSize: uint32, data: seq<byte>) {
    predicate Consistent() {
      |data| == parsedDataSize
    }
    function Bytes(): seq<byte> {
      Bytes16(kind) + Bytes32(parsedDataSize) + data
    }
  }

  datatype QEReportCertificationData = QEReportCertificationData(
    qeReport: EnclaveReport, qeReportSignature: seq<byte>, qeAuthData: QeAuthData,
    certificationData: CertificationData) {
    predicate Consistent() {
      EnclaveReportSized(qeReport) && |qeReportSignature| == 64 && qeAuthData.Consistent() && certificationData.Consistent()
    }
    function Bytes(): seq<byte>
      requires Consistent()
    {
      EnclaveReportBytes(qeReport) + qeReportSignature + (qeAuthData.Bytes() + certificationData.Bytes())
    }
  }

  datatype V3AuthData = V3AuthData(
    signature: seq<byte>, attestationKey: seq<byte>, qeReport: EnclaveReport, qeReportSignature: seq<byte>,
    qeAuthData: QeAuthData, certificationData: CertificationData) {
    predicate Consistent() {
      && |signature| == 64 && |attestationKey| == 64 && EnclaveReportSized(qeReport) && |qeReportSignature| == 64
      && qeAuthData.Consistent() && certificationData.Consistent()
    }
    function Bytes(): seq<byte>
      requires Consistent()
    {
      signature + attestationKey + EnclaveReportBytes(qeReport) + qeReportSignature +
      (qeAuthData.Bytes() + certificationData.Bytes())
    }
  }

  datatype V4AuthData = V4AuthData(signature: seq<byte>, attestationKey: seq<byte>, certificationData: CertificationData) {
    predicate Consistent() {
      |signature| == 64 && |attestationKey| == 64 && certificationData.Consistent()
    }
    function Bytes(): seq<byte> {
      signature + attestationKey + certificationData.Bytes()
    }
  }

  const NoQeAuth: QeAuthData := QeAuthData(0, [])
  const NoCert: CertificationData := CertificationData(0, 0, [])

  // ---- QeAuthData ----

  predicate QeAuthFormat(s: seq<byte>) {
    |s| >= 2 && Word16(s[..2]) == |s| - 2
  }

  function QeAuthAt(s: seq<byte>): QeAuthData
    requires |s| >= 2
  {
    QeAuthData(Word16(s[..2]), s[2..])
  }

  lemma QeAuthBytesOfAt(s: seq<byte>)
    requires QeAuthFormat(s)
    ensures QeAuthAt(s).Consistent() && QeAuthAt(s).Bytes() == s
  {
    BytesOfWord16(s[..2]);
  }

  lemma QeAuthAtOfBytes(v: QeAuthData)
    requires v.Consistent()
    ensures QeAuthFormat(v.Bytes()) && QeAuthAt(v.Bytes()) == v
  {
    WordOfBytes16(v.parsedDataSize);
    assert v.Bytes()[..2] == Bytes16(v.parsedDataSize);
  }

  // QeAuthData::insert: the length must cover exactly the bytes up to the end,
  // or the cursor goes back.
  method InsertQeAuthData(buf: seq<byte>, from0: nat, end: nat) returns (ok: bool, from: nat, v: QeAuthData)
    requires from0 <= end <= |buf|
    ensures ok <==> QeAuthFormat(buf[from0..end])
    ensures if ok then from == end && v == QeAuthAt(buf[from0..end]) else from == from0
  {
    from, v := from0, NoQeAuth;
    var amount := end - from;
    if amount < 2 { return false, from, v; }
    var size;
    ok, from, size := ReadUint16(buf, from, end);
    assert buf[from0..from] == buf[from0..end][..2];
    if size != amount - 2 {
      from := from - 2;
      return false, from, v;
    }
    if size == 0 {
      return true, from, QeAuthData(size, []);
    }
    v := QeAuthData(size, buf[from..from + size]);
    assert buf[from..end] == buf[from0..end][2..];
    from := from + size;
  }

  // ---- CertificationData ----

  predicate CertFormat(s: seq<byte>) {
    |s| >= 6 && Word32(s[2..6]) == |s| - 6
  }

  function CertAt(s: seq<byte>): CertificationData
    requires |s| >= 6
  {
    CertificationData(Word16(s[..2]), Word32(s[2..6]), s[6..])
  }

  lemma CertBytesOfAt(s: seq<byte>)
    requires CertFormat(s)
    ensures CertAt(s).Consistent() && CertAt(s).Bytes() == s
  {
    BytesOfWord16(s[..2]);
    BytesOfWord32(s[2..6]);
    assert s[..2] + s[2..6] + s[6..] == s;
  }

  lemma CertAtOfBytes(v: CertificationData)
    requires v.Consistent()
    ensures CertFormat(v.Bytes()) && CertAt(v.Bytes()) == v
  {
    WordOfBytes16(v.kind);
    WordOfBytes32(v.parsedDataSize);
    assert v.Bytes()[..2] == Bytes16(v.kind) && v.Bytes()[2..6] == Bytes32(v.parsedDataSize) && v.Bytes()[6..] == v.data;
  }

  // CertificationData::insert.
  method InsertCertificationData(buf: seq<byte>, from0: nat, end: nat)
    returns (ok: bool, from: nat, v: CertificationData)
    requires from0 <= end <= |buf|
    ensures ok <==> CertFormat(buf[from0..end])
    ensures if ok then from == end && v == CertAt(buf[from0..end]) else from == from0
  {
    from, v := from0, NoCert;
    var amount := end - from;
    if amount < 6 { return false, from, v; }
    var kind, size;
    ok, from, kind := ReadUint16(buf, from, end);
    ok, from, size := ReadUint32(buf, from, end);
    Within(buf, from0, amount, 0, 2);
    Within(buf, from0, amount, 2, 6);
    Within(buf, from0, amount, 6, amount);
    if size != amount - 6 {
      from := from - 6;
      return false, from, v;
    }
    if size == 0 {
      return true, from, CertificationData(kind, size, []);
    }
    v := CertificationData(kind, size, buf[from..from + size]);
    from := from + size;
  }

  // ---- Certification data whose length is looked up first ----

  predicate CertFits(s: seq<byte>) {
    |s| >= 6 && 6 + Word32(s[2..6]) <= |s|
  }

  function CertLength(s: seq<byte>): (n: nat)
    requires CertFits(s)
    ensures 6 <= n <= |s|
  {
    6 + Word32(s[2..6])
  }

  lemma CertPrefix(s: seq<byte>)
    requires CertFits(s)
    ensures CertFormat(s[..CertLength(s)])
  {
    assert s[..CertLength(s)][2..6] == s[2..6];
  }

  lemma CertFitsBytes(v: CertificationData, rest: seq<byte>)
    requires v.Consistent()
    ensures var s := v.Bytes() + rest;
            CertFits(s) && CertLength(s) == |v.Bytes()| && s[..CertLength(s)] == v.Bytes()
  {
    CertAtOfBytes(v);
    assert (v.Bytes() + rest)[2..6] == v.Bytes()[2..6];
  }

  // The look-ahead shared by the three structures that hold certification data:
  // skip the type, read the length, step back to the type.
  method LookUpCertificationData(buf: seq<byte>, from0: nat, end: nat)
    returns (ok: bool, from: nat, v: CertificationData)
    requires from0 <= end <= |buf|
    ensures from0 <= from <= end
    ensures var s := buf[from0..end];
            && (ok <==> CertFits(s))
            && (ok ==> from == from0 + CertLength(s) && v == CertAt(s[..CertLength(s)]))
  {
    from, v := from0, NoCert;
    ghost var s := buf[from0..end];
    var qeCertSize;
    if end - from < 2 { return false, from, v; }
    from := from + 2;
    ok, from, qeCertSize := ReadUint32(buf, from, end);
    if !ok { return; }
    Within(buf, from0, end - from0, 2, 6);
    from := from - 6;
    var amount: nat := qeCertSize;
    amount := amount + 6;
    if end - from < amount { return false, from, v; }
    Within(buf, from0, end - from0, 0, amount);
    CertPrefix(s);
    ok, from, v := InsertCertificationData(buf, from, from + amount);
  }

  // ---- Authentication data followed by certification data ----

  predicate TailFits(s: seq<byte>) {
    |s| >= 2 && 2 + Word16(s[..2]) <= |s| && CertFits(s[2 + Word16(s[..2])..])
  }

  function AuthLength(s: seq<byte>): nat
    requires |s| >= 2
  {
    2 + Word16(s[..2])
  }

  function TailLength(s: seq<byte>): (n: nat)
    requires TailFits(s)
    ensures AuthLength(s) + 6 <= n <= |s|
  {
    AuthLength(s) + CertLength(s[AuthLength(s)..])
  }

  function TailAt(s: seq<byte>): (QeAuthData, CertificationData)
    requires TailFits(s)
  {
    (QeAuthAt(s[..AuthLength(s)]), CertAt(s[AuthLength(s)..TailLength(s)]))
  }

  lemma TailBytesOfAt(s: seq<byte>)
    requires TailFits(s)
    ensures var (a, c) := TailAt(s);
            a.Consistent() && c.Consistent() && a.Bytes() + c.Bytes() == s[..TailLength(s)]
  {
    var p, q := AuthLength(s), TailLength(s);
    assert s[..p][..2] == s[..2];
    QeAuthBytesOfAt(s[..p]);
    CertPrefix(s[p..]);
    assert s[p..][..q - p] == s[p..q];
    CertBytesOfAt(s[p..q]);
    assert s[..p] + s[p..q] == s[..q];
  }

  lemma TailAtOfBytes(a: QeAuthData, c: CertificationData, rest: seq<byte>)
    requires a.Consistent() && c.Consistent()
    ensures var s := a.Bytes() + c.Bytes() + rest;
            && TailFits(s) && TailAt(s) == (a, c) && TailLength(s) == |a.Bytes() + c.Bytes()|
  {
    var s := a.Bytes() + c.Bytes() + rest;
    QeAuthAtOfBytes(a);
    CertAtOfBytes(c);
    CertFitsBytes(c, rest);
    assert s[..2] == a.Bytes()[..2];
    assert AuthLength(s) == |a.Bytes()|;
    assert s[|a.Bytes()|..] == c.Bytes() + rest && s[..|a.Bytes()|] == a.Bytes();
    assert s[|a.Bytes()|..TailLength(s)] == c.Bytes();
  }

  // Both structures with a tail read it with the same statements.
  method InsertTail(buf: seq<byte>, from0: nat, end: nat)
    returns (ok: bool, from: nat, a: QeAuthData, c: CertificationData)
    requires from0 <= end <= |buf|
    ensures from0 <= from <= end
    ensures var s := buf[from0..end];
            && (ok <==> TailFits(s))
            && (ok ==> from == from0 + TailLength(s) && (a, c) == TailAt(s))
  {
    from, a, c := from0, NoQeAuth, NoCert;
    ghost var s := buf[from0..end];
    var authSize;
    ok, from, authSize := ReadUint16(buf, from, end);
    if !ok { return; }
    Within(buf, from0, end - from0, 0, 2);
    from := from - 2;
    var amount: nat := authSize;
    amount := amount + 2;
    if end - from < amount { return false, from, a, c; }
    assert s[..amount] == buf[from..from + amount];
    assert s[..amount][..2] == s[..2];
    ok, from, a := InsertQeAuthData(buf, from, from + amount);
    ghost var p := from;
    assert buf[p..end] == s[amount..];
    ok, from, c := LookUpCertificationData(buf, from, end);
    if ok {
      assert s[amount..][..from - p] == s[amount..from - from0];
    }
  }

  // ---- QEReportCertificationData ----

  // Nothing may follow it.
  predicate QEReportFormat(s: seq<byte>) {
    |s| >= 448 && TailFits(s[448..]) && TailLength(s[448..]) == |s| - 448
  }

  function QEReportAt(s: seq<byte>): QEReportCertificationData
    requires |s| >= 448 && TailFits(s[448..])
  {
    var (a, c) := TailAt(s[448..]);
    QEReportCertificationData(EnclaveReportAt(s[..384]), s[384..448], a, c)
  }

  lemma {:induction false} QEReportBytesOfAt(s: seq<byte>)
    requires QEReportFormat(s)
    ensures QEReportAt(s).Consistent() && QEReportAt(s).Bytes() == s
  {
    EnclaveReportBytesOfAt(s[..384]);
    TailBytesOfAt(s[448..]);
    assert s[448..][..|s| - 448] == s[448..];
    assert s[..384] + s[384..448] + s[448..] == s;
  }

  lemma {:induction false} QEReportAtOfBytes(v: QEReportCertificationData)
    requires v.Consistent()
    ensures QEReportFormat(v.Bytes()) && QEReportAt(v.Bytes()) == v
  {
    var s := v.Bytes();
    EnclaveReportAtOfBytes(v.qeReport);
    TailAtOfBytes(v.qeAuthData, v.certificationData, []);
    var tail := v.qeAuthData.Bytes() + v.certificationData.Bytes();
    assert tail + [] == tail;
    assert s[448..] == tail && s[..384] == EnclaveReportBytes(v.qeReport) && s[384..448] == v.qeReportSignature;
  }

  method InsertQEReportCertificationData(buf: seq<byte>, from0: nat, end: nat)
    returns (ok: bool, from: nat, v: QEReportCertificationData)
    requires from0 <= end <= |buf|
    ensures ok <==> QEReportFormat(buf[from0..end])
    ensures ok ==> from == end && v == QEReportAt(buf[from0..end])
  {
    ghost var s := buf[from0..end];
    from := from0;
    v := QEReportCertificationData(ZeroEnclaveReport(), Zeros(64), NoQeAuth, NoCert);
    if end - from < 384 { return false, from, v; }
    var qeReport, qeReportSignature, a, c;
    ok, from, qeReport := InsertEnclaveReport(buf, from, from + 384);
    assert buf[from0..from0 + 384] == s[..384];
    if end - from < 64 { return false, from, v; }
    ok, from, qeReportSignature := ReadArray(buf, from, 64, from + 64);
    Within(buf, from0, end - from0, 384, 448);
    assert buf[from..end] == s[448..];
    ok, from, a, c := InsertTail(buf, from, end);
    if !ok { return; }
    v := QEReportCertificationData(qeReport, qeReportSignature, a, c);
    if from != end {
      ok := false;
    }
  }

  // ---- Version 3 ----

  predicate V3Format(s: seq<byte>) {
    |s| >= 576 && TailFits(s[576..])
  }

  function V3Length(s: seq<byte>): (n: nat)
    requires V3Format(s)
    ensures n <= |s|
  {
    576 + TailLength(s[576..])
  }

  function V3At(s: seq<byte>): V3AuthData
    requires V3Format(s)
  {
    var (a, c) := TailAt(s[576..]);
    V3AuthData(s[..64], s[64..128], EnclaveReportAt(s[128..512]), s[512..576], a, c)
  }

  lemma {:induction false} V3BytesOfAt(s: seq<byte>)
    requires V3Format(s)
    ensures V3At(s).Consistent() && V3At(s).Bytes() == s[..V3Length(s)]
  {
    EnclaveReportBytesOfAt(s[128..512]);
    TailBytesOfAt(s[576..]);
    assert s[576..][..TailLength(s[576..])] == s[576..V3Length(s)];
    Glue(s, 0, 64, 128);
    Glue(s, 0, 128, 512);
    Glue(s, 0, 512, 576);
    Glue(s, 0, 576, V3Length(s));
    assert s[..64] == s[0..64];
  }

  lemma {:induction false} V3AtOfBytes(v: V3AuthData, rest: seq<byte>)
    requires v.Consistent()
    ensures var s := v.Bytes() + rest;
            V3Format(s) && V3At(s) == v && V3Length(s) == |v.Bytes()|
  {
    var s := v.Bytes() + rest;
    EnclaveReportAtOfBytes(v.qeReport);
    TailAtOfBytes(v.qeAuthData, v.certificationData, rest);
    var tail := v.qeAuthData.Bytes() + v.certificationData.Bytes();
    Pieces(v.signature, v.attestationKey, EnclaveReportBytes(v.qeReport), v.qeReportSignature, tail + rest);
    assert s == v.signature + v.attestationKey + EnclaveReportBytes(v.qeReport) + v.qeReportSignature + (tail + rest);
  }

  method InsertV3AuthData(buf: seq<byte>, from0: nat, end: nat) returns (ok: bool, from: nat, v: V3AuthData)
    requires from0 <= end <= |buf|
    ensures ok <==> V3Format(buf[from0..end])
    ensures ok ==> from == from0 + V3Length(buf[from0..end]) && v == V3At(buf[from0..end])
  {
    hide EnclaveReportAt, TailFits, TailLength, TailAt;
    ghost var s := buf[from0..end];
    from, v := from0, ZeroV3();
    var signature, attestationKey, qeReport, qeReportSignature, a, c;
    ok, from, signature := ReadArray(buf, from, 64, end);
    if !ok { return; }
    ok, from, attestationKey := ReadArray(buf, from, 64, end);
    if !ok { return; }
    ok, from, qeReport := InsertEnclaveReport(buf, from, end);
    if !ok { return; }
    ok, from, qeReportSignature := ReadArray(buf, from, 64, end);
    if !ok { return; }
    Within(buf, from0, end - from0, 0, 64);
    Within(buf, from0, end - from0, 64, 128);
    Within(buf, from0, end - from0, 128, 512);
    Within(buf, from0, end - from0, 512, 576);
    Within(buf, from0, end - from0, 576, end - from0);
    ok, from, a, c := InsertTail(buf, from, end);
    if !ok { return; }
    v := V3AuthData(signature, attestationKey, qeReport, qeReportSignature, a, c);
  }

  function ZeroV3(): V3AuthData {
    V3AuthData(Zeros(64), Zeros(64), ZeroEnclaveReport(), Zeros(64), NoQeAuth, NoCert)
  }

  // ---- Version 4 and above ----

  predicate V4Format(s: seq<byte>) {
    |s| >= 128 && CertFits(s[128..])
  }

  function V4Length(s: seq<byte>): (n: nat)
    requires V4Format(s)
    ensures n <= |s|
  {
    128 + CertLength(s[128..])
  }

  function V4At(s: seq<byte>): V4AuthData
    requires V4Format(s)
  {
    V4AuthData(s[..64], s[64..128], CertAt(s[128..V4Length(s)]))
  }

  lemma {:induction false} V4BytesOfAt(s: seq<byte>)
    requires V4Format(s)
    ensures V4At(s).Consistent() && V4At(s).Bytes() == s[..V4Length(s)]
  {
    CertPrefix(s[128..]);
    assert s[128..][..V4Length(s) - 128] == s[128..V4Length(s)];
    CertBytesOfAt(s[128..V4Length(s)]);
    assert s[..64] + s[64..128] + s[128..V4Length(s)] == s[..V4Length(s)];
  }

  lemma {:induction false} V4AtOfBytes(v: V4AuthData, rest: seq<byte>)
    requires v.Consistent()
    ensures var s := v.Bytes() + rest;
            V4Format(s) && V4At(s) == v && V4Length(s) == |v.Bytes()|
  {
    var s := v.Bytes() + rest;
    CertFitsBytes(v.certificationData, rest);
    CertAtOfBytes(v.certificationData);
    var c := v.certificationData.Bytes();
    Pieces(v.signature, v.attestationKey, c, rest, []);
    assert s == v.signature + v.attestationKey + c + rest + [];
    Pieces(v.signature, v.attestationKey, c + rest, [], []);
    assert s == v.signature + v.attestationKey + (c + rest) + [] + [];
  }

  method InsertV4AuthData(buf: seq<byte>, from0: nat, end: nat) returns (ok: bool, from: nat, v: V4AuthData)
    requires from0 <= end <= |buf|
    ensures ok <==> V4Format(buf[from0..end])
    ensures ok ==> from == from0 + V4Length(buf[from0..end]) && v == V4At(buf[from0..end])
  {
    ghost var s := buf[from0..end];
    from, v := from0, ZeroV4();
    var signature, attestationKey, c;
    ok, from, signature := ReadArray(buf, from, 64, end);
    if !ok { return; }
    ok, from, attestationKey := ReadArray(buf, from, 64, end);
    if !ok { return; }
    Within(buf, from0, end - from0, 0, 64);
    Within(buf, from0, end - from0, 64, 128);
    Within(buf, from0, end - from0, 128, end - from0);
    ok, from, c := LookUpCertificationData(buf, from, end);
    if !ok { return; }
    SuffixPrefix(s, 128, V4Length(s));
    v := V4AuthData(signature, attestationKey, c);
  }

  lemma SuffixPrefix(s: seq<byte>, a: nat, b: nat)
    requires a <= b <= |s|
    ensures s[a..][..b - a] == s[a..b]
  {
  }

  function ZeroV4(): V4AuthData {
    V4AuthData(Zeros(64), Zeros(64), NoCert)
  }

  // ---- The fields at fixed offsets ----

  // The part with two lengths, from offset k of s on: a is the length of the
  // authentication data, c that of the certification data.
  predicate TailFitsAt(s: seq<byte>, k: nat) {
    && k + 2 <= |s|
    && var a := Uint16At(s, k);
       k + a + 8 <= |s| && k + a + 8 + Uint32At(s, k + a + 4) <= |s|
  }

  lemma TailByOffsets(s: seq<byte>, k: nat)
    requires k <= |s|
    ensures TailFits(s[k..]) <==> TailFitsAt(s, k)
    ensures TailFitsAt(s, k) ==>
              var a := Uint16At(s, k);
              var c := Uint32At(s, k + a + 4);
              && TailLength(s[k..]) == a + c + 8
              && TailAt(s[k..]) == (QeAuthData(a, s[k + 2..k + 2 + a]),
                                    CertificationData(Uint16At(s, k + a + 2), c, s[k + a + 8..k + a + 8 + c]))
  {
    var t := s[k..];
    assert t == s[k..k + |t|];
    if |t| >= 2 {
      Within(s, k, |t|, 0, 2);
      assert t[..2] == t[0..2];
      var a := Word16(t[..2]);
      if 2 + a <= |t| {
        assert t[2 + a..] == s[k + 2 + a..k + |t|];
        if a + 8 <= |t| {
          Within(s, k + 2 + a, |t| - 2 - a, 2, 6);
          if TailFitsAt(s, k) { TailParts(s, k, a, Uint32At(s, k + a + 4)); }
        }
      }
    }
  }

  lemma TailParts(s: seq<byte>, k: nat, a: nat, c: nat)
    requires TailFitsAt(s, k) && TailFits(s[k..]) && a == Uint16At(s, k) && c == Uint32At(s, k + a + 4)
    requires AuthLength(s[k..]) == a + 2 && TailLength(s[k..]) == a + c + 8
    ensures TailAt(s[k..]) == (QeAuthData(a, s[k + 2..k + 2 + a]),
                               CertificationData(Uint16At(s, k + a + 2), c, s[k + a + 8..k + a + 8 + c]))
  {
    var t := s[k..];
    assert t[..a + 2] == s[k..k + a + 2];
    Within(s, k, a + 2, 0, 2);
    Within(s, k, a + 2, 2, a + 2);
    assert t[..a + 2][2..] == t[..a + 2][2..a + 2] && t[..a + 2][..2] == t[..a + 2][0..2];
    var q := k + a + 2;
    assert t[a + 2..a + c + 8] == s[q..q + c + 6];
    Within(s, q, c + 6, 0, 2);
    Within(s, q, c + 6, 2, 6);
    Within(s, q, c + 6, 6, c + 6);
  }

  // Version 3: two signatures around the key and the report, then the tail.
  lemma {:induction false} V3ByOffsets(s: seq<byte>)
    ensures V3Format(s) <==> |s| >= 576 && TailFitsAt(s, 576)
    ensures V3Format(s) ==>
              var v, a := V3At(s), Uint16At(s, 576);
              var c := Uint32At(s, a + 580);
              && v.signature == s[0..64] && v.attestationKey == s[64..128]
              && EnclaveReportSized(v.qeReport) && EnclaveReportBytes(v.qeReport) == s[128..512] && v.qeReportSignature == s[512..576]
              && v.qeAuthData == QeAuthData(a, s[578..578 + a])
              && v.certificationData == CertificationData(Uint16At(s, a + 578), c, s[a + 584..a + 584 + c])
  {
    if |s| >= 576 {
      TailByOffsets(s, 576);
      EnclaveReportBytesOfAt(s[128..512]);
      assert s[..64] == s[0..64];
    }
  }

  // Version 4: the signature, the key, and certification data that nests a
  // report, its signature and a tail, which must fill it.
  predicate V4NestedAt(s: seq<byte>) {
    && |s| >= 134 && 134 + Uint32At(s, 130) <= |s| && Uint32At(s, 130) >= 450
    && var m, a := Uint32At(s, 130), Uint16At(s, 582);
       a + 456 <= m && a + 456 + Uint32At(s, a + 586) == m
  }

  lemma {:induction false} V4ByOffsets(s: seq<byte>)
    ensures V4Format(s) <==> |s| >= 134 && 134 + Uint32At(s, 130) <= |s|
    ensures V4Format(s) ==>
              var v, m := V4At(s), Uint32At(s, 130);
              && v.signature == s[0..64] && v.attestationKey == s[64..128]
              && v.certificationData == CertificationData(Uint16At(s, 128), m, s[134..134 + m])
  {
    if |s| >= 134 {
      Within(s, 128, |s| - 128, 2, 6);
      assert s[128..] == s[128..|s|];
      if 134 + Uint32At(s, 130) <= |s| {
        var m: nat := Uint32At(s, 130);
        Within(s, 128, m + 6, 0, 2);
        Within(s, 128, m + 6, 2, 6);
        Within(s, 128, m + 6, 6, m + 6);
        assert s[..64] == s[0..64];
      }
    }
  }

  lemma {:induction false} NestedByOffsets(s: seq<byte>)
    requires V4Format(s)
    ensures QEReportFormat(V4At(s).certificationData.data) <==> V4NestedAt(s)
    ensures V4NestedAt(s) ==>
              var q, a := QEReportAt(V4At(s).certificationData.data), Uint16At(s, 582);
              var c := Uint32At(s, a + 586);
              && EnclaveReportSized(q.qeReport) && EnclaveReportBytes(q.qeReport) == s[134..518] && q.qeReportSignature == s[518..582]
              && q.qeAuthData == QeAuthData(a, s[584..584 + a])
              && q.certificationData == CertificationData(Uint16At(s, a + 584), c, s[a + 590..a + 590 + c])
  {
    hide QEReportFormat, V4At, Uint16At, Uint32At, EnclaveReportBytes;
    V4ByOffsets(s);
    var m: nat := Uint32At(s, 130);
    QEReportByOffsets(s[134..134 + m]);
    NestedFits(s, m);
    if V4NestedAt(s) { NestedParts(s, m, Uint16At(s, 582), Uint32At(s, Uint16At(s, 582) + 586)); }
  }

  lemma QEReportByOffsets(d: seq<byte>)
    ensures QEReportFormat(d) <==>
              TailFitsAt(d, 448) && Uint16At(d, 448) as int + Uint32At(d, 448 + Uint16At(d, 448) + 4) as int + 456 == |d|
    ensures QEReportFormat(d) ==>
              var q, a := QEReportAt(d), Uint16At(d, 448);
              var c := Uint32At(d, 448 + a + 4);
              && EnclaveReportSized(q.qeReport) && EnclaveReportBytes(q.qeReport) == d[0..384] && q.qeReportSignature == d[384..448]
              && q.qeAuthData == QeAuthData(a, d[450..450 + a])
              && q.certificationData == CertificationData(Uint16At(d, 450 + a), c, d[456 + a..456 + a + c])
  {
    hide TailAt, TailLength, TailFits, EnclaveReportAt, EnclaveReportBytes, Uint16At, Uint32At;
    if |d| >= 448 {
      TailByOffsets(d, 448);
      EnclaveReportBytesOfAt(d[..384]);
      assert d[..384] == d[0..384];
    }
  }

  lemma NestedFits(s: seq<byte>, m: nat)
    requires |s| >= 134 && m == Uint32At(s, 130) && 134 + m <= |s|
    ensures var d := s[134..134 + m];
            && (V4NestedAt(s) <==>
                  TailFitsAt(d, 448) && Uint16At(d, 448) as int + Uint32At(d, 448 + Uint16At(d, 448) + 4) as int + 456 == |d|)
            && (V4NestedAt(s) ==>
                  && Uint16At(d, 448) == Uint16At(s, 582)
                  && Uint32At(d, 452 + Uint16At(s, 582)) == Uint32At(s, Uint16At(s, 582) + 586)
                  && Uint16At(d, 450 + Uint16At(s, 582)) == Uint16At(s, Uint16At(s, 582) + 584))
  {
    hide Uint16At, Uint32At;
    if m >= 450 {
      WordsWithin(s, 134, m, 448);
      var a: nat := Uint16At(s, 582);
      WordsWithin(s, 134, m, a + 452);
      WordsWithin(s, 134, m, a + 450);
    }
  }

  lemma NestedParts(s: seq<byte>, m: nat, a: nat, c: nat)
    requires 134 + m <= |s| && a + c + 456 == m
    ensures var d := s[134..134 + m];
            && d[0..384] == s[134..518] && d[384..448] == s[518..582]
            && d[450..450 + a] == s[584..584 + a] && d[456 + a..456 + a + c] == s[a + 590..a + 590 + c]
  {
    Within(s, 134, m, 0, 384);
    Within(s, 134, m, 384, 448);
    Within(s, 134, m, 450, 450 + a);
    Within(s, 134, m, 456 + a, 456 + a + c);
  }
}
