// Verification collateral: collected call by call, then aggregated into a vector
// of fixed layout.
module Collateral {
  import opened CInt
  import opened ByteOperands
  import opened Layout
  import opened Wrappers
  import opened TcbLevels

  type text = seq<byte>
  type time = t: int | TIME_MIN <= t <= TIME_MAX

  const COMMA: byte := 44

  const IDS_LEN := 450
  const STATUS_LEN := 50
  const INFO_LEN := 1048

  // ---- 64-bit times ----

  function TimeBytes(t: time): (s: seq<byte>)
    ensures |s| == 8
  {
    var u := if t < 0 then t + 0x1_0000_0000_0000_0000 else t;
    Bytes32(u % 0x1_0000_0000) + Bytes32(u / 0x1_0000_0000)
  }

  function TimeOf(s: seq<byte>): time
    requires |s| == 8
  {
    var u := Word32(s[..4]) + 0x1_0000_0000 * Word32(s[4..]);
    if u >= 0x8000_0000_0000_0000 then u - 0x1_0000_0000_0000_0000 else u
  }

  lemma TimeOfTimeBytes(t: time)
    ensures TimeOf(TimeBytes(t)) == t
  {
    var u := if t < 0 then t + 0x1_0000_0000_0000_0000 else t;
    WordOfBytes32(u % 0x1_0000_0000);
    WordOfBytes32(u / 0x1_0000_0000);
    assert TimeBytes(t)[..4] == Bytes32(u % 0x1_0000_0000) && TimeBytes(t)[4..] == Bytes32(u / 0x1_0000_0000);
  }

  // A time, byte by byte: little-endian, in two's complement.
  lemma TimeByBytes(s: seq<byte>)
    requires |s| == 8
    ensures TimeOf(s) == s[0] as int + 0x100 * s[1] as int + 0x1_0000 * s[2] as int + 0x100_0000 * s[3] as int
                         + 0x1_0000_0000 * s[4] as int + 0x100_0000_0000 * s[5] as int
                         + 0x1_0000_0000_0000 * s[6] as int + 0x100_0000_0000_0000 * s[7] as int
                         - if s[7] >= 0x80 then 0x1_0000_0000_0000_0000 else 0
  {
    WordSum32(s[..4]);
    WordSum32(s[4..]);
  }

  lemma {:induction false} TimeBytesByDigits(t: time, s: seq<byte>)
    requires s == TimeBytes(t)
    ensures t == s[0] as int + 0x100 * s[1] as int + 0x1_0000 * s[2] as int + 0x100_0000 * s[3] as int
                 + 0x1_0000_0000 * s[4] as int + 0x100_0000_0000 * s[5] as int
                 + 0x1_0000_0000_0000 * s[6] as int + 0x100_0000_0000_0000 * s[7] as int
                 - if s[7] >= 0x80 then 0x1_0000_0000_0000_0000 else 0
  {
    TimeOfTimeBytes(t);
    TimeByBytes(s);
  }

  // ---- std::set<std::string> ----

  ghost predicate Ascending(s: seq<text>) {
    forall i, j :: 0 <= i < j < |s| ==> VectorGreater(s[j], s[i])
  }

  ghost function Elements(s: seq<text>): set<text> {
    set id | id in s
  }

  // insert: x in its place, unless it is there.
  function Insert(s: seq<text>, x: text): seq<text> {
    if s == [] || VectorGreater(s[0], x) then [x] + s
    else if s[0] == x then s
    else [s[0]] + Insert(s[1..], x)
  }

  lemma {:induction false} InsertCorrect(s: seq<text>, x: text)
    requires Ascending(s)
    ensures Ascending(Insert(s, x)) && Elements(Insert(s, x)) == Elements(s) + {x}
    decreases |s|
  {
    hide VectorGreater;
    if s == [] {
    } else if VectorGreater(s[0], x) {
      forall j | 0 <= j < |s|
        ensures VectorGreater(s[j], x)
      {
        if j > 0 { GreaterIsTransitive(s[j], s[0], x); }
      }
    } else if s[0] != x {
      GreaterIsTotal(s[0], x);
      InsertCorrect(s[1..], x);
      HeadLeast(s, Insert(s[1..], x), x);
    }
  }

  lemma HeadLeast(s: seq<text>, t: seq<text>, x: text)
    requires s != [] && Ascending(s) && Ascending(t) && Elements(t) == Elements(s[1..]) + {x} && VectorGreater(x, s[0])
    ensures Ascending([s[0]] + t) && Elements([s[0]] + t) == Elements(s) + {x}
  {
    hide VectorGreater;
    assert s == [s[0]] + s[1..];
    forall j | 0 <= j < |t|
      ensures VectorGreater(t[j], s[0])
    {
      assert t[j] in Elements(t);
      if t[j] != x {
        var k :| 0 <= k < |s[1..]| && s[1..][k] == t[j];
        assert s[k + 1] == t[j];
      }
    }
    assert Elements([s[0]] + t) == {s[0]} + Elements(t);
    assert Elements(s) == {s[0]} + Elements(s[1..]);
  }

  // The order is fixed by the elements.
  lemma {:induction false} AscendingUnique(s: seq<text>, t: seq<text>)
    requires Ascending(s) && Ascending(t) && Elements(s) == Elements(t)
    ensures s == t
    decreases |s|
  {
    if s == [] {
      assert forall i :: 0 <= i < |t| ==> t[i] in Elements(t);
    } else {
      assert s[0] in Elements(t);
      var i :| 0 <= i < |t| && t[i] == s[0];
      assert t[0] in Elements(s);
      var j :| 0 <= j < |s| && s[j] == t[0];
      if i > 0 && j > 0 { GreaterIsAsymmetric(s[0], t[0]); }
      if i > 0 && j == 0 { GreaterIsTotal(s[0], t[0]); }
      TailElements(s);
      TailElements(t);
      AscendingUnique(s[1..], t[1..]);
      assert s == [s[0]] + s[1..] && t == [t[0]] + t[1..];
    }
  }

  lemma TailElements(s: seq<text>)
    requires Ascending(s) && s != []
    ensures Elements(s[1..]) == Elements(s) - {s[0]}
  {
    forall id | id in s[1..]
      ensures id != s[0]
    {
      var k :| 0 <= k < |s[1..]| && s[1..][k] == id;
      assert s[k + 1] == id;
      GreaterIsTotal(id, s[0]);
    }
    assert s == [s[0]] + s[1..];
  }

  // ---- advisoryIdsToString ----

  // Every id followed by a comma.
  function Terminated(ids: seq<text>): text {
    if ids == [] then [] else ids[0] + [COMMA] + Terminated(ids[1..])
  }

  // The ids with commas between them.
  function Joined(ids: seq<text>): text {
    var s := Terminated(ids);
    if s == [] then [] else s[..|s| - 1]
  }

  lemma {:induction false} TerminatedAppend(ids: seq<text>, id: text)
    ensures Terminated(ids + [id]) == Terminated(ids) + (id + [COMMA])
  {
    if ids == [] {
      assert Terminated([id]) == id + [COMMA] + Terminated([]);
    } else {
      assert (ids + [id])[1..] == ids[1..] + [id];
      TerminatedAppend(ids[1..], id);
    }
  }

  method AdvisoryIdsToString(advisoryIds: seq<text>) returns (r: Option<text>)
    ensures r == if |Joined(advisoryIds)| >= IDS_LEN then None else Some(Joined(advisoryIds))
  {
    var str: text := [];
    for i := 0 to |advisoryIds|
      invariant str == Terminated(advisoryIds[..i])
    {
      TerminatedAppend(advisoryIds[..i], advisoryIds[i]);
      assert advisoryIds[..i] + [advisoryIds[i]] == advisoryIds[..i + 1];
      str := str + (advisoryIds[i] + [COMMA]);
    }
    assert advisoryIds[..|advisoryIds|] == advisoryIds;
    if str != [] {
      str := str[..|str| - 1];
    }
    if |str| >= IDS_LEN {
      return None;
    }
    return Some(str);
  }

  // ---- Reading an id list back ----

  // What is before the first c, or everything.
  function Before(s: text, c: byte): text {
    if s == [] || s[0] == c then [] else [s[0]] + Before(s[1..], c)
  }

  lemma {:induction false} BeforeStopsAt(s: text, c: byte, t: text)
    requires c !in s && (t == [] || t[0] == c)
    ensures Before(s + t, c) == s
  {
    if s == [] {
      assert s + t == t;
    } else {
      assert (s + t)[1..] == s[1..] + t;
      BeforeStopsAt(s[1..], c, t);
    }
  }

  lemma {:induction false} BeforeIsPrefix(s: text, c: byte)
    ensures Before(s, c) <= s
  {
    if s != [] && s[0] != c {
      BeforeIsPrefix(s[1..], c);
      assert s == [s[0]] + s[1..];
    }
  }

  // The parts between commas; the empty text has none.
  function SplitAtCommas(s: text): seq<text>
    decreases |s|
  {
    BeforeIsPrefix(s, COMMA);
    var id := Before(s, COMMA);
    if s == [] then [] else if |id| == |s| then [id] else [id] + SplitAtCommas(s[|id| + 1..])
  }

  ghost predicate Plain(id: text) {
    id != [] && COMMA !in id && 0 !in id
  }

  // One comma stands between two ids, and none behind the last.
  lemma JoinedTwo(a: text, b: text)
    ensures Joined([]) == [] && Joined([a]) == a && Joined([a, b]) == a + [',' as int] + b
  {
    assert [a][1..] == [] && [a, b][1..] == [b];
    assert Terminated([a]) == a + [COMMA] && Terminated([b]) == b + [COMMA];
    assert Terminated([a, b]) == a + [COMMA] + (b + [COMMA]);
    assert (a + [COMMA])[..|a|] == a;
    assert (a + [COMMA] + (b + [COMMA]))[..|a| + 1 + |b|] == a + [COMMA] + b;
  }

  lemma JoinedFirst(ids: seq<text>)
    requires |ids| > 1 && Joined(ids[1..]) != []
    ensures Joined(ids) == ids[0] + ([COMMA] + Joined(ids[1..]))
  {
    var t := Terminated(ids[1..]);
    assert Terminated(ids) == ids[0] + ([COMMA] + t);
    assert (ids[0] + ([COMMA] + t))[..|ids[0]| + |t|] == ids[0] + ([COMMA] + t[..|t| - 1]);
  }

  lemma SplitFirst(id: text, rest: text)
    requires COMMA !in id
    ensures SplitAtCommas(id + ([COMMA] + rest)) == [id] + SplitAtCommas(rest)
  {
    hide Before;
    BeforeStopsAt(id, COMMA, [COMMA] + rest);
    assert (id + ([COMMA] + rest))[|id| + 1..] == rest;
  }

  lemma {:induction false} SplitUndoesJoin(ids: seq<text>)
    requires forall i :: 0 <= i < |ids| ==> Plain(ids[i])
    ensures SplitAtCommas(Joined(ids)) == ids && 0 !in Joined(ids)
    ensures ids != [] ==> Joined(ids) != []
  {
    if |ids| == 1 {
      assert Terminated(ids) == ids[0] + [COMMA] + Terminated([]);
      assert Joined(ids) == ids[0];
      BeforeStopsAt(ids[0], COMMA, []);
      assert ids[0] + [] == ids[0];
    } else if |ids| > 1 {
      hide Joined, Terminated, SplitAtCommas, Before;
      SplitUndoesJoin(ids[1..]);
      JoinedFirst(ids);
      SplitFirst(ids[0], Joined(ids[1..]));
      assert ids == [ids[0]] + ids[1..];
    }
  }

  // ---- What has been added ----

  datatype Addition =
    | LaunchInfo(date: time, ids: seq<text>, status: text)
    | CurrentInfo(date: time, ids: seq<text>, status: text)
    | Document(issueDate: time, nextUpdate: time, evalNumber: uint32)

  ghost function IssueDates(h: seq<Addition>): seq<time> {
    if h == [] then [] else IssueDates(h[..|h| - 1]) + if h[|h| - 1].Document? then [h[|h| - 1].issueDate] else []
  }

  ghost function NextUpdates(h: seq<Addition>): seq<time> {
    if h == [] then [] else NextUpdates(h[..|h| - 1]) + if h[|h| - 1].Document? then [h[|h| - 1].nextUpdate] else []
  }

  ghost function EvalNumbers(h: seq<Addition>): seq<uint32> {
    if h == [] then [] else EvalNumbers(h[..|h| - 1]) + if h[|h| - 1].Document? then [h[|h| - 1].evalNumber] else []
  }

  // Every id of every launch entry, or of every current one.
  ghost function IdsOf(h: seq<Addition>, launch: bool): set<text> {
    set k, id | 0 <= k < |h| && !h[k].Document? && h[k].LaunchInfo? == launch && id in h[k].ids :: id
  }

  // The newest launch entry, or current one.
  ghost function DateOf(h: seq<Addition>, launch: bool): time {
    if h == [] then 0
    else
      var last := h[|h| - 1];
      if !last.Document? && last.LaunchInfo? == launch then last.date else DateOf(h[..|h| - 1], launch)
  }

  ghost function StatusOf(h: seq<Addition>, launch: bool): text {
    if h == [] then []
    else
      var last := h[|h| - 1];
      if !last.Document? && last.LaunchInfo? == launch then last.status else StatusOf(h[..|h| - 1], launch)
  }

  lemma IdsOfAppend(h: seq<Addition>, a: Addition, launch: bool)
    ensures IdsOf(h + [a], launch)
         == IdsOf(h, launch) + if !a.Document? && a.LaunchInfo? == launch then Elements(a.ids) else {}
  {
    var g := h + [a];
    assert g[|h|] == a && forall k :: 0 <= k < |h| ==> g[k] == h[k];
    forall id | id in IdsOf(h, launch)
      ensures id in IdsOf(g, launch)
    {
      var k :| 0 <= k < |h| && !h[k].Document? && h[k].LaunchInfo? == launch && id in h[k].ids;
      assert id in g[k].ids;
    }
    if !a.Document? && a.LaunchInfo? == launch {
      forall id | id in a.ids
        ensures id in IdsOf(g, launch)
      {
        assert id in g[|h|].ids;
      }
    }
  }

  // What the history says of everything but the ids.
  ghost predicate Recorded(h: seq<Addition>, issueDates: seq<time>, nextUpdates: seq<time>, evalNumbers: seq<uint32>,
                           launchDate: time, currentDate: time, launchStatus: text, currentStatus: text) {
    && IssueDates(h) == issueDates && NextUpdates(h) == nextUpdates && EvalNumbers(h) == evalNumbers
    && DateOf(h, true) == launchDate && DateOf(h, false) == currentDate
    && StatusOf(h, true) == launchStatus && StatusOf(h, false) == currentStatus
  }

  lemma RecordedAppend(h: seq<Addition>, a: Addition)
    ensures a.LaunchInfo? ==> Recorded(h + [a], IssueDates(h), NextUpdates(h), EvalNumbers(h),
                                       a.date, DateOf(h, false), a.status, StatusOf(h, false))
    ensures a.CurrentInfo? ==> Recorded(h + [a], IssueDates(h), NextUpdates(h), EvalNumbers(h),
                                        DateOf(h, true), a.date, StatusOf(h, true), a.status)
    ensures a.Document? ==> Recorded(h + [a], IssueDates(h) + [a.issueDate], NextUpdates(h) + [a.nextUpdate],
                                     EvalNumbers(h) + [a.evalNumber],
                                     DateOf(h, true), DateOf(h, false), StatusOf(h, true), StatusOf(h, false))
  {
    assert (h + [a])[..|h|] == h;
  }

  // The set, kept in order, of the ids the history gives.
  ghost predicate Kept(s: seq<text>, h: seq<Addition>, launch: bool) {
    Ascending(s) && Elements(s) == IdsOf(h, launch)
  }

  // ---- The layout ----

  ghost predicate Least(m: int, s: seq<int>) {
    m in s && forall x :: x in s ==> m <= x
  }

  ghost predicate Greatest(m: int, s: seq<int>) {
    m in s && forall x :: x in s ==> x <= m
  }

  function Padded(s: text, n: nat): (p: seq<byte>)
    requires |s| <= n
    ensures |p| == n
  {
    s + Zeros(n - |s|)
  }

  // The field holds the ids in ascending order, joined.
  ghost predicate ListsIds(field: seq<byte>, ids: set<text>) {
    exists s :: Ascending(s) && Elements(s) == ids && |Joined(s)| < IDS_LEN && field == Padded(Joined(s), IDS_LEN)
  }

  ghost predicate HoldsStatus(field: seq<byte>, status: text) {
    |status| < STATUS_LEN && field == Padded(status, STATUS_LEN)
  }

  ghost predicate DatesDescribed(v: seq<byte>, h: seq<Addition>)
    requires |v| == 48
  {
    && Word16(v[0..2]) == 1 && Word16(v[2..4]) == 2
    && Least(TimeOf(v[4..12]), IssueDates(h)) && Greatest(TimeOf(v[12..20]), IssueDates(h))
    && Least(TimeOf(v[20..28]), NextUpdates(h)) && Least(Word32(v[28..32]), EvalNumbers(h))
    && TimeOf(v[32..40]) == DateOf(h, true) && TimeOf(v[40..48]) == DateOf(h, false)
  }

  ghost predicate Describes(v: seq<byte>, h: seq<Addition>) {
    && |v| == INFO_LEN && DatesDescribed(v[..48], h)
    && ListsIds(v[48..498], IdsOf(h, true)) && ListsIds(v[498..948], IdsOf(h, false))
    && HoldsStatus(v[948..998], StatusOf(h, true)) && HoldsStatus(v[998..1048], StatusOf(h, false))
  }

  // Reading up to the first NUL and splitting at the commas recovers the ids.
  lemma IdsReadBack(field: seq<byte>, ids: set<text>)
    requires ListsIds(field, ids) && forall id :: id in ids ==> Plain(id)
    ensures Ascending(SplitAtCommas(Before(field, 0))) && Elements(SplitAtCommas(Before(field, 0))) == ids
  {
    var s :| Ascending(s) && Elements(s) == ids && |Joined(s)| < IDS_LEN && field == Padded(Joined(s), IDS_LEN);
    forall i | 0 <= i < |s|
      ensures Plain(s[i])
    {
      assert s[i] in Elements(s);
    }
    SplitUndoesJoin(s);
    ListsOfSplit(s, field);
  }

  lemma ListsOfSplit(s: seq<text>, field: seq<byte>)
    requires |Joined(s)| < IDS_LEN && field == Padded(Joined(s), IDS_LEN) && 0 !in Joined(s)
    ensures Before(field, 0) == Joined(s)
  {
    BeforeStopsAt(Joined(s), 0, Zeros(IDS_LEN - |Joined(s)|));
  }

  lemma StatusReadBack(field: seq<byte>, status: text)
    requires HoldsStatus(field, status) && 0 !in status
    ensures Before(field, 0) == status
  {
    BeforeStopsAt(status, 0, Zeros(STATUS_LEN - |status|));
  }

  // ---- VerificationCollateralInfo ----

  method MinElement(s: seq<int>) returns (m: int)
    requires s != []
    ensures Least(m, s)
  {
    m := s[0];
    for i := 0 to |s|
      invariant m in s && forall k :: 0 <= k < i ==> m <= s[k]
    {
      if s[i] < m { m := s[i]; }
    }
  }

  method MaxElement(s: seq<int>) returns (m: int)
    requires s != []
    ensures Greatest(m, s)
  {
    m := s[0];
    for i := 0 to |s|
      invariant m in s && forall k :: 0 <= k < i ==> s[k] <= m
    {
      if m < s[i] { m := s[i]; }
    }
  }

  // Nothing has been written from offset on.
  ghost predicate Clear(v: seq<byte>, offset: nat) {
    forall k :: offset <= k < |v| ==> v[k] == 0
  }

  // memcpy to &byteVec[offset], and the step of offset past the field.
  method Write(byteVec: array<byte>, offset: nat, src: seq<byte>, width: nat) returns (next: nat)
    requires |src| <= width && offset + width <= byteVec.Length && Clear(byteVec[..], offset)
    modifies byteVec
    ensures next == offset + width && Clear(byteVec[..], next)
    ensures byteVec[..next] == old(byteVec[..offset]) + Padded(src, width)
  {
    for i := 0 to |src|
      invariant byteVec[..offset] == old(byteVec[..offset])
      invariant forall k :: 0 <= k < i ==> byteVec[offset + k] == src[k]
      invariant Clear(byteVec[..], offset + i)
    {
      byteVec[offset + i] := src[i];
    }
    next := offset + width;
    forall k | 0 <= k < width
      ensures byteVec[offset + k] == Padded(src, width)[k]
    {
      if k >= |src| { assert byteVec[..][offset + k] == 0; }
    }
  }

  // A field that its source fills.
  method WriteWhole(byteVec: array<byte>, offset: nat, src: seq<byte>) returns (next: nat)
    requires offset + |src| <= byteVec.Length && Clear(byteVec[..], offset)
    modifies byteVec
    ensures next == offset + |src| && Clear(byteVec[..], next)
    ensures byteVec[..next] == old(byteVec[..offset]) + src
  {
    assert Padded(src, |src|) == src;
    next := Write(byteVec, offset, src, |src|);
  }

  lemma DatesReadBack(v: seq<byte>, min: time, max: time, expiration: time, number: uint32, launch: time, current: time)
    requires v == Bytes16(1) + Bytes16(2) + TimeBytes(min) + TimeBytes(max) + TimeBytes(expiration) + Bytes32(number)
                + TimeBytes(launch) + TimeBytes(current)
    ensures |v| == 48 && Word16(v[0..2]) == 1 && Word16(v[2..4]) == 2
    ensures TimeOf(v[4..12]) == min && TimeOf(v[12..20]) == max && TimeOf(v[20..28]) == expiration
    ensures Word32(v[28..32]) == number && TimeOf(v[32..40]) == launch && TimeOf(v[40..48]) == current
  {
    assert v[0..2] == Bytes16(1) && v[2..4] == Bytes16(2);
    assert v[4..12] == TimeBytes(min) && v[12..20] == TimeBytes(max) && v[20..28] == TimeBytes(expiration);
    assert v[28..32] == Bytes32(number) && v[32..40] == TimeBytes(launch) && v[40..48] == TimeBytes(current);
    WordOfBytes16(1);
    WordOfBytes16(2);
    WordOfBytes32(number);
    TimeOfTimeBytes(min);
    TimeOfTimeBytes(max);
    TimeOfTimeBytes(expiration);
    TimeOfTimeBytes(launch);
    TimeOfTimeBytes(current);
  }

  class VerificationCollateralInfo {
    var issueDates: seq<time>
    var nextUpdates: seq<time>
    var tcbEvalNumbers: seq<uint32>
    var launchTcbDate: time
    var currentTcbDate: time
    var launchAdvisoryIds: seq<text>
    var currentAdvisoryIds: seq<text>
    var launchTcbStatus: text
    var currentTcbStatus: text

    // Every add call so far.
    ghost var history: seq<Addition>

    ghost predicate Valid()
      reads this
    {
      && Recorded(history, issueDates, nextUpdates, tcbEvalNumbers, launchTcbDate, currentTcbDate,
                  launchTcbStatus, currentTcbStatus)
      && Kept(launchAdvisoryIds, history, true) && Kept(currentAdvisoryIds, history, false)
    }

    constructor ()
      ensures Valid() && history == []
    {
      issueDates, nextUpdates, tcbEvalNumbers := [], [], [];
      launchTcbDate, currentTcbDate := 0, 0;
      launchAdvisoryIds, currentAdvisoryIds := [], [];
      launchTcbStatus, currentTcbStatus := [], [];
      history := [];
    }

    method AddLaunchInfo(tcbDate: time, advisoryIds: seq<text>, tcbStatus: text)
      requires Valid()
      modifies this
      ensures Valid() && history == old(history) + [LaunchInfo(tcbDate, advisoryIds, tcbStatus)]
    {
      ghost var addition := LaunchInfo(tcbDate, advisoryIds, tcbStatus);
      RecordedAppend(history, addition);
      launchTcbDate := tcbDate;
      launchAdvisoryIds := InsertAll(launchAdvisoryIds, advisoryIds, history, addition, true);
      launchTcbStatus := tcbStatus;
      KeptElsewhere(currentAdvisoryIds, history, addition, false);
      history := history + [addition];
    }

    method AddCurrentInfo(tcbDate: time, advisoryIds: seq<text>, tcbStatus: text)
      requires Valid()
      modifies this
      ensures Valid() && history == old(history) + [CurrentInfo(tcbDate, advisoryIds, tcbStatus)]
    {
      ghost var addition := CurrentInfo(tcbDate, advisoryIds, tcbStatus);
      RecordedAppend(history, addition);
      currentTcbDate := tcbDate;
      currentAdvisoryIds := InsertAll(currentAdvisoryIds, advisoryIds, history, addition, false);
      currentTcbStatus := tcbStatus;
      KeptElsewhere(launchAdvisoryIds, history, addition, true);
      history := history + [addition];
    }

    // addTcbInfoData and addEnclaveIdentityData, which read the same three values.
    method AddDocument(issueDate: time, nextUpdate: time, evalNumber: uint32)
      requires Valid()
      modifies this
      ensures Valid() && history == old(history) + [Document(issueDate, nextUpdate, evalNumber)]
    {
      ghost var addition := Document(issueDate, nextUpdate, evalNumber);
      RecordedAppend(history, addition);
      issueDates := issueDates + [issueDate];
      nextUpdates := nextUpdates + [nextUpdate];
      tcbEvalNumbers := tcbEvalNumbers + [evalNumber];
      KeptElsewhere(launchAdvisoryIds, history, addition, true);
      KeptElsewhere(currentAdvisoryIds, history, addition, false);
      history := history + [addition];
    }

    // The size at which an exception leaves no vector.
    predicate TooLong()
      reads this
    {
      || |Joined(launchAdvisoryIds)| >= IDS_LEN || |Joined(currentAdvisoryIds)| >= IDS_LEN
      || |launchTcbStatus| >= STATUS_LEN || |currentTcbStatus| >= STATUS_LEN
    }

    method WriteIssueDates(byteVec: array<byte>) returns (offset: nat, ghost min: time, ghost max: time)
      requires byteVec.Length == INFO_LEN && Clear(byteVec[..], 0) && issueDates != []
      modifies byteVec
      ensures offset == 20 && byteVec[..20] == Bytes16(1) + Bytes16(2) + TimeBytes(min) + TimeBytes(max)
      ensures Clear(byteVec[..], offset) && Least(min, issueDates) && Greatest(max, issueDates)
    {
      var issueDateMin := MinElement(issueDates);
      var issueDateMax := MaxElement(issueDates);
      offset := WriteWhole(byteVec, 0, Bytes16(1));
      offset := WriteWhole(byteVec, offset, Bytes16(2));
      offset := WriteWhole(byteVec, offset, TimeBytes(issueDateMin));
      offset := WriteWhole(byteVec, offset, TimeBytes(issueDateMax));
      min, max := issueDateMin, issueDateMax;
    }

    method WriteDates(byteVec: array<byte>) returns (offset: nat)
      requires Valid() && byteVec.Length == INFO_LEN && Clear(byteVec[..], 0) && issueDates != []
      requires nextUpdates != [] && tcbEvalNumbers != []
      modifies byteVec
      ensures offset == 48 && DatesDescribed(byteVec[..48], history) && Clear(byteVec[..], offset)
    {
      ghost var min, max;
      offset, min, max := WriteIssueDates(byteVec);
      var expirationDate := MinElement(nextUpdates);
      var tcbEvaluationDataNumber := MinElement(tcbEvalNumbers);
      offset := WriteWhole(byteVec, offset, TimeBytes(expirationDate));
      offset := WriteWhole(byteVec, offset, Bytes32(tcbEvaluationDataNumber));
      offset := WriteWhole(byteVec, offset, TimeBytes(launchTcbDate));
      offset := WriteWhole(byteVec, offset, TimeBytes(currentTcbDate));
      DatesReadBack(byteVec[..48], min, max, expirationDate, tcbEvaluationDataNumber, launchTcbDate, currentTcbDate);
    }

    // aggregateDataAndParseToVec; None stands for the exception.
    method AggregateDataAndParseToVec() returns (r: Option<seq<byte>>)
      requires Valid()
      ensures issueDates == [] ==> r == Some(Zeros(INFO_LEN))
      ensures issueDates != [] ==> (r.None? <==> TooLong())
      ensures issueDates != [] && r.Some? ==> Describes(r.value, history)
    {
      hide Joined, Terminated, VectorGreater, DatesDescribed;
      SameLengths(history);
      var byteVec := new byte[INFO_LEN](_ => 0);
      if issueDates == [] || nextUpdates == [] || tcbEvalNumbers == [] {
        assert byteVec[..] == Zeros(INFO_LEN);
        return Some(byteVec[..]);
      }
      var offset := WriteDates(byteVec);
      ghost var dates := byteVec[..48];
      var advisoryIdsStr := AdvisoryIdsToString(launchAdvisoryIds);
      if advisoryIdsStr == None { return None; }
      offset := Write(byteVec, offset, advisoryIdsStr.value, IDS_LEN);
      advisoryIdsStr := AdvisoryIdsToString(currentAdvisoryIds);
      if advisoryIdsStr == None { return None; }
      offset := Write(byteVec, offset, advisoryIdsStr.value, IDS_LEN);
      if |launchTcbStatus| >= STATUS_LEN { return None; }
      offset := Write(byteVec, offset, launchTcbStatus, STATUS_LEN);
      if |currentTcbStatus| >= STATUS_LEN { return None; }
      offset := Write(byteVec, offset, currentTcbStatus, STATUS_LEN);
      ghost var v := byteVec[..];
      assert v == byteVec[..offset];
      TextsReadBack(v, dates, Padded(Joined(launchAdvisoryIds), IDS_LEN), Padded(Joined(currentAdvisoryIds), IDS_LEN),
                    Padded(launchTcbStatus, STATUS_LEN), Padded(currentTcbStatus, STATUS_LEN));
      if offset != byteVec.Length {
        assert false;
        return None;
      }
      return Some(byteVec[..]);
    }
  }

  lemma TextsReadBack(v: seq<byte>, dates: seq<byte>, a: seq<byte>, b: seq<byte>, c: seq<byte>, d: seq<byte>)
    requires |dates| == 48 && |a| == IDS_LEN && |b| == IDS_LEN && |c| == STATUS_LEN && |d| == STATUS_LEN
    requires v == dates + a + b + c + d
    ensures |v| == INFO_LEN && v[..48] == dates && v[48..498] == a && v[498..948] == b
    ensures v[948..998] == c && v[998..1048] == d
  {
  }

  // Every document adds to all three lists.
  lemma {:induction false} SameLengths(h: seq<Addition>)
    ensures |IssueDates(h)| == |NextUpdates(h)| == |EvalNumbers(h)|
  {
    if h != [] { SameLengths(h[..|h| - 1]); }
  }

  // A range insert; the ghost parameters say which addition the ids come from.
  method InsertAll(s: seq<text>, advisoryIds: seq<text>, ghost h: seq<Addition>, ghost a: Addition, ghost launch: bool)
      returns (r: seq<text>)
    requires Kept(s, h, launch) && !a.Document? && a.LaunchInfo? == launch && a.ids == advisoryIds
    ensures Kept(r, h + [a], launch)
  {
    r := s;
    for i := 0 to |advisoryIds|
      invariant Ascending(r) && Elements(r) == Elements(s) + Elements(advisoryIds[..i])
    {
      InsertCorrect(r, advisoryIds[i]);
      assert advisoryIds[..i + 1] == advisoryIds[..i] + [advisoryIds[i]];
      assert Elements(advisoryIds[..i + 1]) == Elements(advisoryIds[..i]) + {advisoryIds[i]};
      r := Insert(r, advisoryIds[i]);
    }
    assert advisoryIds[..|advisoryIds|] == advisoryIds;
    IdsOfAppend(h, a, launch);
  }

  lemma KeptElsewhere(s: seq<text>, h: seq<Addition>, a: Addition, launch: bool)
    requires Kept(s, h, launch) && (a.Document? || a.LaunchInfo? != launch)
    ensures Kept(s, h + [a], launch)
  {
    IdsOfAppend(h, a, launch);
  }
}
