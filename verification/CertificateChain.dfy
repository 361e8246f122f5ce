// Splitting a PEM chain into certificates, and finding the root and the leaf.
module CertificateChain {
  import opened Wrappers

  // The begin and end markers. What is shown of the splitting loop itself uses
  // only that both begin with a dash.
  datatype Pair = Pair(beg: string, end: string) {
    // Five dashes, a text that does not hold one, five dashes; the texts differ
    // in their first letter.
    predicate Shaped() {
      && |beg| == 27 && |end| == 25 && beg[5] != end[5]
      && (forall k :: 0 <= k < 27 ==> (beg[k] == '-' <==> k < 5 || 22 <= k))
      && (forall k :: 0 <= k < 25 ==> (end[k] == '-' <==> k < 5 || 20 <= k))
    }
  }

  type Markers = m: Pair | m.beg != "" && m.beg[0] == '-' && m.end != "" && m.end[0] == '-'
    witness Pair("-", "-")

  const DASHES := "-----"
  const PEM: Markers := Pair(DASHES + "BEGIN CERTIFICATE" + DASHES, DASHES + "END CERTIFICATE" + DASHES)

  // ---- std::string::find ----

  predicate OccursAt(s: string, pat: string, i: int) {
    0 <= i && i + |pat| <= |s| && forall k :: i <= k < i + |pat| ==> s[k] == pat[k - i]
  }

  ghost predicate FirstAt(s: string, pat: string, from: nat, i: nat) {
    from <= i && OccursAt(s, pat, i) && forall k :: from <= k < i ==> !OccursAt(s, pat, k)
  }

  lemma {:induction false} FirstExists(s: string, pat: string, from: nat, n: nat)
    requires from <= n && OccursAt(s, pat, n)
    ensures exists i: nat :: FirstAt(s, pat, from, i)
    decreases n
  {
    if k :| from <= k < n && OccursAt(s, pat, k) {
      FirstExists(s, pat, from, k);
    } else {
      assert FirstAt(s, pat, from, n);
    }
  }

  ghost function Find(s: string, pat: string, from: nat): (r: Option<nat>)
    ensures r.Some? ==> FirstAt(s, pat, from, r.value)
    ensures r.None? ==> forall i :: from <= i ==> !OccursAt(s, pat, i)
  {
    if i :| from <= i && OccursAt(s, pat, i) then
      FirstExists(s, pat, from, i);
      var f: nat :| FirstAt(s, pat, from, f);
      Some(f)
    else None
  }

  // The first occurrence is the one with none before it.
  lemma FindIs(s: string, pat: string, from: nat, i: nat)
    requires FirstAt(s, pat, from, i)
    ensures Find(s, pat, from) == Some(i)
  {
    var r := Find(s, pat, from);
    assert r.Some? && !(r.value < i) && !(i < r.value);
  }

  lemma SliceDiffers(s: string, pat: string, i: nat)
    requires i + |pat| <= |s| && s[i..i + |pat|] != pat
    ensures !OccursAt(s, pat, i)
  {
    var t := s[i..i + |pat|];
    var j :| 0 <= j < |pat| && t[j] != pat[j];
    assert pat[j] != s[i + j];
  }

  method FindString(s: string, pat: string, from: nat) returns (r: Option<nat>)
    ensures r == Find(s, pat, from)
  {
    var i := from;
    while i + |pat| <= |s|
      invariant from <= i && forall k :: from <= k < i ==> !OccursAt(s, pat, k)
    {
      if s[i..i + |pat|] == pat {
        assert forall j :: 0 <= j < |pat| ==> pat[j] == s[i..i + |pat|][j];
        FindIs(s, pat, from, i);
        return Some(i);
      }
      SliceDiffers(s, pat, i);
      i := i + 1;
    }
    assert forall k :: from <= k ==> !OccursAt(s, pat, k);
    return None;
  }

  lemma OccursShift(s: string, pat: string, n: nat, i: int)
    requires n <= |s| && i >= 0
    ensures OccursAt(s[n..], pat, i) <==> OccursAt(s, pat, n + i)
  {
  }

  // Searching from n is searching what follows n.
  lemma FindShift(s: string, pat: string, n: nat)
    requires n <= |s|
    ensures match Find(s[n..], pat, 0)
            case None => Find(s, pat, n) == None
            case Some(i) => Find(s, pat, n) == Some(n + i)
  {
    var r := Find(s[n..], pat, 0);
    forall k | n <= k && (r.Some? ==> k < n + r.value)
      ensures !OccursAt(s, pat, k)
    {
      OccursShift(s, pat, n, k - n);
    }
    if r.Some? {
      OccursShift(s, pat, n, r.value);
      FindIs(s, pat, n, n + r.value);
    }
  }

  // The first dash at or behind n, or the end of s.
  function DashFrom(s: string, n: nat): (i: nat)
    requires n <= |s|
    ensures n <= i <= |s| && (forall k :: n <= k < i ==> s[k] != '-') && (i < |s| ==> s[i] == '-')
    decreases |s| - n
  {
    if n == |s| || s[n] == '-' then n else DashFrom(s, n + 1)
  }

  lemma DashIs(s: string, n: nat, i: nat)
    requires n <= i < |s| && s[i] == '-' && forall k :: n <= k < i ==> s[k] != '-'
    ensures DashFrom(s, n) == i
  {
  }

  lemma DashStartsEnd(m: Markers, s: string, n: nat, e: nat)
    requires n <= e && OccursAt(s, m.end, e)
    ensures s[e] == '-' && DashFrom(s, n) <= e
  {
    assert m.end[0] == s[e + 0];
  }

  // ---- splitChain ----

  ghost predicate HoldsBegin(m: Markers, cert: string) {
    exists i :: OccursAt(cert, m.beg, i)
  }

  // A slice without a begin marker is dropped.
  ghost function Add(m: Markers, ret: seq<string>, cert: string): seq<string> {
    if HoldsBegin(m, cert) then ret + [cert] else ret
  }

  // What is returned once position n, which is behind an end marker or at the
  // first begin marker, is reached with ret: each certificate goes from the next
  // dash to the next end marker, and two touching end markers empty the result.
  ghost function SplitFrom(m: Markers, s: string, n: nat, ret: seq<string>): seq<string>
    requires n <= |s|
    decreases |s| - n
  {
    match Find(s, m.end, n)
    case None => ret
    case Some(e) =>
      var z := e + |m.end|;
      DashStartsEnd(m, s, n, e);
      if OccursAt(s, m.end, z) then [] else SplitFrom(m, s, z, Add(m, ret, s[DashFrom(s, n)..z]))
  }

  ghost function Split(m: Markers, pemChain: string): seq<string> {
    var b, e := Find(pemChain, m.beg, 0), Find(pemChain, m.end, 0);
    if b.None? || e.None? || b.value >= e.value then [] else SplitFrom(m, pemChain, b.value, [])
  }

  // The inner loop: the end marker ahead stops it.
  method SkipToDash(m: Markers, pemChain: string, n: nat, ghost e: nat) returns (d: nat)
    requires n <= e && OccursAt(pemChain, m.end, e)
    ensures n <= d <= e && d == DashFrom(pemChain, n)
  {
    DashStartsEnd(m, pemChain, n, e);
    d := n;
    while pemChain[d] != '-'
      invariant n <= d <= e < |pemChain| && DashFrom(pemChain, d) == DashFrom(pemChain, n)
      decreases e - d
    {
      d := d + 1;
    }
  }

  // splitChain, one certificate: from the dash behind n to the end marker at e.
  method CutCertificate(m: Markers, pemChain: string, n: nat, e: nat, ret0: seq<string>)
    returns (ret: seq<string>, newEndPos: nat)
    requires n <= e && OccursAt(pemChain, m.end, e)
    ensures newEndPos == e + |m.end| && DashFrom(pemChain, n) <= newEndPos
    ensures ret == Add(m, ret0, pemChain[DashFrom(pemChain, n)..newEndPos])
  {
    ret := ret0;
    var newStartPos := SkipToDash(m, pemChain, n, e);
    newEndPos := e + |m.end|;
    var cert := pemChain[newStartPos..newEndPos];
    var inside := FindString(cert, m.beg, 0);
    if inside != None {
      ret := ret + [cert];
    }
  }

  lemma SplitFromStep(m: Markers, s: string, n: nat, e: nat, ret: seq<string>)
    requires n <= e && OccursAt(s, m.end, e) && Find(s, m.end, n) == Some(e)
    ensures var z := e + |m.end|;
            DashFrom(s, n) <= z &&
            SplitFrom(m, s, n, ret) == if OccursAt(s, m.end, z) then []
                                       else SplitFrom(m, s, z, Add(m, ret, s[DashFrom(s, n)..z]))
  {
    DashStartsEnd(m, s, n, e);
  }

  lemma SplitFromEnd(m: Markers, s: string, n: nat, ret: seq<string>)
    requires n <= |s| && Find(s, m.end, n) == None
    ensures SplitFrom(m, s, n, ret) == ret
  {
  }

  // splitChain.
  method SplitChain(pemChain: string, m: Markers := PEM) returns (ret: seq<string>)
    ensures ret == Split(m, pemChain)
  {
    if pemChain == "" { return []; }
    var begPos := FindString(pemChain, m.beg, 0);
    var endPos := FindString(pemChain, m.end, 0);
    if begPos == None || endPos == None || begPos.value >= endPos.value { return []; }
    FindIs(pemChain, m.end, begPos.value, endPos.value);
    ret := SplitLoop(m, pemChain, begPos.value, endPos);
  }

  method SplitLoop(m: Markers, pemChain: string, begPos: nat, endPos: Option<nat>) returns (ret: seq<string>)
    requires begPos <= |pemChain| && endPos == Find(pemChain, m.end, begPos)
    ensures ret == SplitFrom(m, pemChain, begPos, [])
  {
    hide SplitFrom, Find, HoldsBegin, Add;
    ret := [];
    var newStartPos, foundEndPos := begPos, endPos;
    while foundEndPos != None
      invariant newStartPos <= |pemChain| && foundEndPos == Find(pemChain, m.end, newStartPos)
      invariant SplitFrom(m, pemChain, newStartPos, ret) == SplitFrom(m, pemChain, begPos, [])
      decreases |pemChain| - newStartPos
    {
      SplitFromStep(m, pemChain, newStartPos, foundEndPos.value, ret);
      ret, newStartPos := CutCertificate(m, pemChain, newStartPos, foundEndPos.value, ret);
      foundEndPos := FindString(pemChain, m.end, newStartPos);
      if foundEndPos != None && foundEndPos.value <= newStartPos {
        return [];
      }
    }
    SplitFromEnd(m, pemChain, newStartPos, ret);
  }

  // ---- What any result is ----

  // The i-th result is the slice given by the i-th place; the places are in
  // order and do not overlap.
  ghost predicate Slices(s: string, certs: seq<string>, places: seq<(nat, nat)>) {
    && |places| == |certs|
    && (forall i :: 0 <= i < |places| ==>
          places[i].0 <= places[i].1 <= |s| && certs[i] == s[places[i].0..places[i].1])
    && (forall i, j :: 0 <= i < j < |places| ==> places[i].1 <= places[j].0)
  }

  ghost predicate Enclosed(m: Markers, cert: string) {
    && |cert| >= |m.end| && cert[0] == '-' && cert[|cert| - |m.end|..] == m.end
    && HoldsBegin(m, cert)
  }

  lemma CertEnclosed(m: Markers, s: string, d: nat, e: nat)
    requires d <= e && OccursAt(s, m.end, e) && s[d] == '-' && HoldsBegin(m, s[d..e + |m.end|])
    ensures Enclosed(m, s[d..e + |m.end|])
  {
    var cert := s[d..e + |m.end|];
    assert cert[|cert| - |m.end|..] == s[e..e + |m.end|];
  }

  // The results are slices of s[..n], each enclosed.
  ghost predicate CutUpTo(m: Markers, s: string, n: nat, certs: seq<string>, places: seq<(nat, nat)>) {
    && Slices(s, certs, places) && (forall i :: 0 <= i < |places| ==> places[i].1 <= n)
    && forall c :: c in certs ==> Enclosed(m, c)
  }

  lemma CutAdd(m: Markers, s: string, n: nat, e: nat, certs: seq<string>, places: seq<(nat, nat)>)
      returns (all: seq<(nat, nat)>)
    requires n <= e && OccursAt(s, m.end, e) && CutUpTo(m, s, n, certs, places)
    ensures DashFrom(s, n) <= e
    ensures CutUpTo(m, s, e + |m.end|, Add(m, certs, s[DashFrom(s, n)..e + |m.end|]), all)
  {
    var d, z := DashFrom(s, n), e + |m.end|;
    DashStartsEnd(m, s, n, e);
    all := places;
    if HoldsBegin(m, s[d..z]) {
      CertEnclosed(m, s, d, e);
      all := places + [(d, z)];
    }
  }

  lemma {:induction false} SplitFromSlices(m: Markers, s: string, n: nat, ret: seq<string>, places: seq<(nat, nat)>)
      returns (all: seq<(nat, nat)>)
    requires n <= |s| && CutUpTo(m, s, n, ret, places)
    ensures CutUpTo(m, s, |s|, SplitFrom(m, s, n, ret), all)
    decreases |s| - n
  {
    hide SplitFrom, HoldsBegin, Add;
    var r := Find(s, m.end, n);
    if r.None? {
      SplitFromEnd(m, s, n, ret);
      all := places;
    } else if OccursAt(s, m.end, r.value + |m.end|) {
      SplitFromStep(m, s, n, r.value, ret);
      all := [];
    } else {
      SplitFromStep(m, s, n, r.value, ret);
      all := CutAdd(m, s, n, r.value, ret, places);
      all := SplitFromSlices(m, s, r.value + |m.end|, Add(m, ret, s[DashFrom(s, n)..r.value + |m.end|]), all);
    }
  }

  // On any text the results are disjoint slices in order, each from a dash to an
  // end marker and with a begin marker in it.
  lemma {:induction false} SplitSlices(m: Markers, pemChain: string)
    ensures exists places :: Slices(pemChain, Split(m, pemChain), places)
    ensures forall c :: c in Split(m, pemChain) ==> Enclosed(m, c)
  {
    var b, e := Find(pemChain, m.beg, 0), Find(pemChain, m.end, 0);
    var places := [];
    if !(b.None? || e.None? || b.value >= e.value) {
      places := SplitFromSlices(m, pemChain, b.value, [], []);
    }
    assert Slices(pemChain, Split(m, pemChain), places);
  }

  // ---- Splitting undoes concatenation ----

  // A certificate's text between its markers, and what follows its end marker.
  datatype Item = Item(body: string, gap: string)

  function Block(m: Markers, body: string): string {
    m.beg + body + m.end
  }

  function Text(m: Markers, items: seq<Item>): string {
    if items == [] then "" else Block(m, items[0].body) + (items[0].gap + Text(m, items[1..]))
  }

  function Bodies(m: Markers, items: seq<Item>): seq<string> {
    if items == [] then [] else [Block(m, items[0].body)] + Bodies(m, items[1..])
  }

  predicate DashFree(s: string) {
    forall i :: 0 <= i < |s| ==> s[i] != '-'
  }

  predicate Plain(items: seq<Item>) {
    forall i :: 0 <= i < |items| ==> DashFree(items[i].body) && DashFree(items[i].gap)
  }

  // The one body that, with the dashes around it, completes an end marker.
  function Confusing(m: Markers): string
    requires m.Shaped()
  {
    m.end[5..20]
  }

  lemma PemShape()
    ensures PEM.Shaped() && Confusing(PEM) == "END CERTIFICATE"
  {
    PemBegin();
    PemEnd();
  }

  lemma PemBegin()
    ensures |PEM.beg| == 27 && PEM.beg[5] == 'B'
    ensures forall k :: 0 <= k < 27 ==> (PEM.beg[k] == '-' <==> k < 5 || 22 <= k)
  {
    var text := "BEGIN CERTIFICATE";
    assert |text| == 17 && text[0] == 'B' && '-' !in text;
    DashesAround(text);
  }

  lemma PemEnd()
    ensures |PEM.end| == 25 && PEM.end[5..20] == "END CERTIFICATE" && PEM.end[5] == 'E'
    ensures forall k :: 0 <= k < 25 ==> (PEM.end[k] == '-' <==> k < 5 || 20 <= k)
  {
    var text := "END CERTIFICATE";
    assert |text| == 15 && text[0] == 'E' && '-' !in text;
    TextBetweenDashes(text);
    DashesAround(text);
  }

  lemma DashesAround(text: string)
    requires '-' !in text
    ensures var s := DASHES + text + DASHES;
            && |s| == |text| + 10 && (text != "" ==> s[5] == text[0])
            && forall k :: 0 <= k < |s| ==> (s[k] == '-' <==> k < 5 || 5 + |text| <= k)
  {
    var s := DASHES + text + DASHES;
    forall k | 0 <= k < |s|
      ensures s[k] == '-' <==> k < 5 || 5 + |text| <= k
    {
      if 5 <= k < 5 + |text| { assert s[k] == text[k - 5]; }
    }
  }

  lemma TextBetweenDashes(text: string)
    ensures (DASHES + text + DASHES)[5..5 + |text|] == text
  {
  }

  function Around(m: Markers, gap: string, body: string, tail: string): string {
    gap + Block(m, body) + tail
  }

  lemma AroundChars(m: Markers, gap: string, body: string, tail: string)
    requires m.Shaped()
    ensures var w := Around(m, gap, body, tail);
            && |w| == |gap| + 27 + |body| + 25 + |tail|
            && (forall k :: 0 <= k < |gap| ==> w[k] == gap[k])
            && (forall k :: |gap| <= k < |gap| + 27 ==> w[k] == m.beg[k - |gap|])
            && (forall k :: |gap| + 27 <= k < |gap| + 27 + |body| ==> w[k] == body[k - |gap| - 27])
            && (forall k :: |gap| + 27 + |body| <= k < |gap| + 52 + |body| ==> w[k] == m.end[k - |gap| - 27 - |body|])
  {
  }

  // A place where the text differs from the marker rules out an occurrence.
  lemma NotAt(w: string, pat: string, i: int, j: int)
    requires 0 <= i && 0 <= j < |pat| && i + j < |w| && w[i + j] != pat[j]
    ensures !OccursAt(w, pat, i)
  {
  }

  // No end marker begins before the one behind the body, unless at the dashes
  // that end the begin marker, and there only before the confusing body.
  lemma {:induction false} NoEarlyEnd(m: Markers, gap: string, body: string, tail: string, i: int)
    requires m.Shaped()
    requires DashFree(gap) && DashFree(body) && 0 <= i < |gap| + 27 + |body|
    requires i == |gap| + 22 ==> body != Confusing(m)
    ensures !OccursAt(Around(m, gap, body, tail), m.end, i)
  {
    var w, k := Around(m, gap, body, tail), i - |gap|;
    AroundChars(m, gap, body, tail);
    if k < 0 || 5 <= k < 22 || 27 <= k {
      NotAt(w, m.end, i, 0);
    } else if k == 0 {
      NotAt(w, m.end, i, 5);
    } else if k < 5 {
      NotAt(w, m.end, i, 5 - k);
    } else if k > 22 {
      // The dashes run out too early, or too late when the body is empty.
      if body != "" { NotAt(w, m.end, i, 27 - k); } else { NotAt(w, m.end, i, 5); }
    } else if |body| < 15 {
      NotAt(w, m.end, i, 5 + |body|);
    } else if |body| > 15 {
      NotAt(w, m.end, i, 20);
    } else {
      var j :| 0 <= j < 15 && body[j] != Confusing(m)[j];
      assert Confusing(m)[j] == m.end[5 + j];
      NotAt(w, m.end, i, 5 + j);
    }
  }

  lemma EndOccurs(m: Markers, gap: string, body: string, tail: string)
    requires m.Shaped()
    ensures OccursAt(Around(m, gap, body, tail), m.end, |gap| + 27 + |body|)
    ensures OccursAt(Around(m, gap, body, tail), m.beg, |gap|)
  {
    AroundChars(m, gap, body, tail);
    var w := Around(m, gap, body, tail);
    var n := |gap| + 27 + |body|;
    assert w[n..n + 25] == m.end;
    assert w[|gap|..|gap| + 27] == m.beg;
  }

  lemma ConfusingOccurs(m: Markers, gap: string, tail: string)
    requires m.Shaped()
    ensures OccursAt(Around(m, gap, Confusing(m), tail), m.end, |gap| + 22)
  {
    AroundChars(m, gap, Confusing(m), tail);
    var w := Around(m, gap, Confusing(m), tail);
    forall j | 0 <= j < 25
      ensures w[|gap| + 22 + j] == m.end[j]
    {
      if 5 <= j < 20 { assert Confusing(m)[j - 5] == m.end[j]; }
    }
    assert w[|gap| + 22..|gap| + 47] == m.end;
  }

  // Where the search finds the end of the first certificate of a suffix.
  lemma {:induction false} FirstEnd(m: Markers, s: string, n: nat, gap: string, body: string, tail: string)
    requires m.Shaped() && DashFree(gap) && DashFree(body)
    requires n <= |s| && s[n..] == Around(m, gap, body, tail)
    ensures Find(s, m.end, n) == Some(n + |gap| + (if body == Confusing(m) then 22 else 27 + |body|))
    ensures DashFrom(s, n) == n + |gap|
  {
    FirstEndWithin(m, gap, body, tail);
    FindShift(s, m.end, n);
    FirstDash(m, s, n, gap, body, tail);
  }

  lemma {:induction false} FirstEndWithin(m: Markers, gap: string, body: string, tail: string)
    requires m.Shaped() && DashFree(gap) && DashFree(body)
    ensures Find(Around(m, gap, body, tail), m.end, 0)
         == Some(|gap| + (if body == Confusing(m) then 22 else 27 + |body|))
  {
    var w := Around(m, gap, body, tail);
    var e := if body == Confusing(m) then |gap| + 22 else |gap| + 27 + |body|;
    forall i | 0 <= i < e
      ensures !OccursAt(w, m.end, i)
    {
      NoEarlyEnd(m, gap, body, tail, i);
    }
    EndOccurs(m, gap, body, tail);
    if body == Confusing(m) { ConfusingOccurs(m, gap, tail); }
    FindIs(w, m.end, 0, e);
  }

  lemma FirstDash(m: Markers, s: string, n: nat, gap: string, body: string, tail: string)
    requires m.Shaped() && DashFree(gap) && n <= |s| && s[n..] == Around(m, gap, body, tail)
    ensures DashFrom(s, n) == n + |gap|
  {
    AroundChars(m, gap, body, tail);
    var w := Around(m, gap, body, tail);
    assert forall k :: n <= k < n + |gap| ==> s[k] == w[k - n] == gap[k - n];
    assert s[n + |gap|] == w[|gap|] == '-';
    DashIs(s, n, n + |gap|);
  }

  lemma NoEndInGap(m: Markers, gap: string)
    requires DashFree(gap)
    ensures Find(gap, m.end, 0) == None && Find(gap, m.beg, 0) == None
  {
    forall i | 0 <= i
      ensures !OccursAt(gap, m.end, i) && !OccursAt(gap, m.beg, i)
    {
      if i < |gap| { NotAt(gap, m.end, i, 0); NotAt(gap, m.beg, i, 0); }
    }
  }

  // The first certificate cut out of the text: the whole block, or for the
  // confusing body a piece of it that is too short.
  lemma {:induction false} FirstCert(m: Markers, s: string, n: nat, gap: string, body: string, tail: string, z: nat)
    requires m.Shaped() && n <= |s| && s[n..] == Around(m, gap, body, tail)
    requires z == n + |gap| + (if body == Confusing(m) then 47 else 52 + |body|)
    ensures z <= |s| && HoldsBegin(m, s[n + |gap|..z])
    ensures body != Confusing(m) ==> s[n + |gap|..z] == Block(m, body) && s[z..] == tail
    ensures body == Confusing(m) ==> |s[n + |gap|..z]| < |Block(m, body)|
  {
    var w := Around(m, gap, body, tail);
    AroundChars(m, gap, body, tail);
    SliceOfSuffix(s, n, w, |gap|, z - n);
    SliceOfSlice(w, |gap|, z - n, 27);
    assert w[|gap|..|gap| + 27] == m.beg;
    var cert := s[n + |gap|..z];
    assert OccursAt(cert, m.beg, 0);
    FindIs(cert, m.beg, 0, 0);
    if body != Confusing(m) {
      assert w == gap + (Block(m, body) + tail);
      assert w[|gap|..|gap| + |Block(m, body)|] == Block(m, body);
      SliceOfSuffix(s, n, w, z - n, |w|);
      assert w[z - n..] == tail;
    }
  }

  lemma SliceOfSuffix(s: string, n: nat, w: string, a: nat, b: nat)
    requires n <= |s| && s[n..] == w && a <= b <= |w|
    ensures n + |w| == |s| && s[n + a..n + b] == w[a..b]
  {
    assert |s| == n + |w|;
    forall i | 0 <= i < b - a
      ensures s[n + a..n + b][i] == w[a..b][i]
    {
      assert w[a..b][i] == w[a + i] == s[n + (a + i)];
    }
  }

  lemma SliceOfSlice(w: string, a: nat, b: nat, k: nat)
    requires a + k <= b <= |w|
    ensures w[a..b][0..k] == w[a..a + k]
  {
    forall i | 0 <= i < k
      ensures w[a..b][0..k][i] == w[a..a + k][i]
    {
      assert w[a..b][0..k][i] == w[a..b][i] == w[a + i];
    }
  }

  predicate NoneConfusing(m: Markers, items: seq<Item>)
    requires m.Shaped()
  {
    forall i :: 0 <= i < |items| ==> items[i].body != Confusing(m)
  }

  lemma PlainParts(items: seq<Item>)
    requires Plain(items) && items != []
    ensures DashFree(items[0].body) && DashFree(items[0].gap) && Plain(items[1..])
  {
    assert forall i :: 0 < i < |items| ==> items[i] == items[1..][i - 1];
  }

  lemma TextAround(m: Markers, gap: string, items: seq<Item>)
    requires items != []
    ensures gap + Text(m, items) == Around(m, gap, items[0].body, items[0].gap + Text(m, items[1..]))
  {
  }

  lemma NoneConfusingTail(m: Markers, items: seq<Item>)
    requires m.Shaped()
    requires items != [] && items[0].body != Confusing(m)
    ensures NoneConfusing(m, items) <==> NoneConfusing(m, items[1..])
  {
    assert forall i :: 0 < i < |items| ==> items[i] == items[1..][i - 1];
  }

  // The result is empty or extends what was collected.
  lemma {:induction false} SplitFromExtends(m: Markers, s: string, n: nat, ret: seq<string>)
    requires n <= |s|
    ensures SplitFrom(m, s, n, ret) == [] || ret <= SplitFrom(m, s, n, ret)
    decreases |s| - n
  {
    hide SplitFrom, HoldsBegin;
    var r := Find(s, m.end, n);
    if r.None? {
      SplitFromEnd(m, s, n, ret);
    } else {
      SplitFromStep(m, s, n, r.value, ret);
    }
    if r.Some? && !OccursAt(s, m.end, r.value + |m.end|) {
      SplitFromExtends(m, s, r.value + |m.end|, Add(m, ret, s[DashFrom(s, n)..r.value + |m.end|]));
    }
  }

  lemma NextEndIsFurther(m: Markers, s: string, n: nat, gap: string, items: seq<Item>)
    requires m.Shaped() && DashFree(gap) && Plain(items) && n <= |s| && s[n..] == gap + Text(m, items)
    ensures !OccursAt(s, m.end, n)
  {
    if items == [] {
      NoEndInGap(m, gap);
      assert s[n..] == gap;
      FindShift(s, m.end, n);
    } else {
      TextAround(m, gap, items);
      FirstEnd(m, s, n, gap, items[0].body, items[0].gap + Text(m, items[1..]));
    }
  }

  lemma {:induction false} SplitFromText(m: Markers, s: string, n: nat, gap: string, items: seq<Item>, ret: seq<string>)
    requires m.Shaped() && DashFree(gap) && Plain(items) && n <= |s| && s[n..] == gap + Text(m, items)
    ensures SplitFrom(m, s, n, ret) == ret + Bodies(m, items) <==> NoneConfusing(m, items)
    decreases |items|
  {
    hide SplitFrom, Find, HoldsBegin, DashFree;
    if items == [] {
      NoEndInGap(m, gap);
      assert s[n..] == gap;
      FindShift(s, m.end, n);
      SplitFromEnd(m, s, n, ret);
    } else if items[0].body == Confusing(m) {
      ConfusingHead(m, s, n, gap, items, ret);
    } else {
      PlainParts(items);
      var z := OtherHead(m, s, n, gap, items, ret);
      SplitFromText(m, s, z, items[0].gap, items[1..], ret + [Block(m, items[0].body)]);
      NoneConfusingTail(m, items);
      assert ret + Bodies(m, items) == (ret + [Block(m, items[0].body)]) + Bodies(m, items[1..]);
    }
  }

  lemma ConfusingHead(m: Markers, s: string, n: nat, gap: string, items: seq<Item>, ret: seq<string>)
    requires m.Shaped() && DashFree(gap) && Plain(items) && n <= |s| && s[n..] == gap + Text(m, items)
    requires items != [] && items[0].body == Confusing(m)
    ensures SplitFrom(m, s, n, ret) != ret + Bodies(m, items)
  {
    hide SplitFrom, Find, Plain, DashFree, Text, Around, HoldsBegin;
    PlainParts(items);
    var body, tail := items[0].body, items[0].gap + Text(m, items[1..]);
    var e := n + |gap| + 22;
    TextAround(m, gap, items);
    FirstEnd(m, s, n, gap, body, tail);
    FirstCert(m, s, n, gap, body, tail, e + 25);
    SplitFromStep(m, s, n, e, ret);
    var cert := s[n + |gap|..e + 25];
    SplitFromExtends(m, s, e + 25, ret + [cert]);
    ShortCert(m, items, ret, cert, SplitFrom(m, s, n, ret));
  }

  lemma ShortCert(m: Markers, items: seq<Item>, ret: seq<string>, cert: string, r: seq<string>)
    requires items != [] && (r == [] || ret + [cert] <= r) && |cert| < |Block(m, items[0].body)|
    ensures r != ret + Bodies(m, items)
  {
    assert (ret + Bodies(m, items))[|ret|] == Block(m, items[0].body);
    if r != [] { assert r[|ret|] == (ret + [cert])[|ret|] == cert; }
  }

  lemma OtherHead(m: Markers, s: string, n: nat, gap: string, items: seq<Item>, ret: seq<string>) returns (z: nat)
    requires m.Shaped() && DashFree(gap) && Plain(items) && n <= |s| && s[n..] == gap + Text(m, items)
    requires items != [] && items[0].body != Confusing(m)
    ensures z <= |s| && s[z..] == items[0].gap + Text(m, items[1..])
    ensures SplitFrom(m, s, n, ret) == SplitFrom(m, s, z, ret + [Block(m, items[0].body)])
  {
    hide SplitFrom, Find, Plain, DashFree, Text, Around, HoldsBegin;
    PlainParts(items);
    var body, tail := items[0].body, items[0].gap + Text(m, items[1..]);
    var e := n + |gap| + 27 + |body|;
    z := e + 25;
    TextAround(m, gap, items);
    FirstEnd(m, s, n, gap, body, tail);
    FirstCert(m, s, n, gap, body, tail, z);
    NextEndIsFurther(m, s, z, items[0].gap, items[1..]);
    SplitFromStep(m, s, n, e, ret);
  }

  // Splitting gives back exactly the certificates that were joined, in order and
  // with text around them, when neither bodies nor text hold a dash - except if
  // and only if some body reads "END CERTIFICATE".
  lemma {:induction false} SplitUndoesJoin(m: Markers, lead: string, items: seq<Item>)
    requires m.Shaped() && DashFree(lead) && Plain(items)
    ensures Split(m, lead + Text(m, items)) == Bodies(m, items) <==> NoneConfusing(m, items)
  {
    hide SplitFrom;
    if items == [] {
      NoEndInGap(m, lead);
      assert lead + Text(m, []) == lead;
    } else {
      SplitStartsAtLead(m, lead, items);
      SplitAfterLead(m, lead, items);
    }
  }

  lemma SplitStartsAtLead(m: Markers, lead: string, items: seq<Item>)
    requires m.Shaped() && DashFree(lead) && Plain(items) && items != []
    ensures var w := lead + Text(m, items); |lead| <= |w| && Split(m, w) == SplitFrom(m, w, |lead|, [])
  {
    hide SplitFrom, Split, Plain, DashFree, Text, Around;
    PlainParts(items);
    TextAround(m, lead, items);
    AroundStartsAtLead(m, lead, items[0].body, items[0].gap + Text(m, items[1..]));
  }

  lemma SplitAfterLead(m: Markers, lead: string, items: seq<Item>)
    requires m.Shaped() && Plain(items)
    ensures var w := lead + Text(m, items);
            SplitFrom(m, w, |lead|, []) == Bodies(m, items) <==> NoneConfusing(m, items)
  {
    assert DashFree("");
    hide SplitFrom, Plain, DashFree, Text, NoneConfusing, Bodies, OccursAt;
    var w := lead + Text(m, items);
    LeadCut(lead, Text(m, items));
    SplitFromText(m, w, |lead|, "", items, []);
    assert [] + Bodies(m, items) == Bodies(m, items);
  }

  lemma LeadCut(lead: string, t: string)
    ensures (lead + t)[|lead|..] == "" + t
  {
  }

  lemma FirstBegin(m: Markers, lead: string, body: string, tail: string)
    requires m.Shaped() && DashFree(lead)
    ensures Find(Around(m, lead, body, tail), m.beg, 0) == Some(|lead|)
  {
    var w := Around(m, lead, body, tail);
    EndOccurs(m, lead, body, tail);
    forall i | 0 <= i < |lead|
      ensures !OccursAt(w, m.beg, i)
    {
      AroundChars(m, lead, body, tail);
      NotAt(w, m.beg, i, 0);
    }
    FindIs(w, m.beg, 0, |lead|);
  }

  // The markers of section 5 of RFC 7468, written out.
  function PemBlock(body: string): string {
    "-----BEGIN CERTIFICATE-----" + body + "-----END CERTIFICATE-----"
  }

  function PemText(items: seq<Item>): string {
    if items == [] then "" else PemBlock(items[0].body) + (items[0].gap + PemText(items[1..]))
  }

  lemma PemMarkers()
    ensures PEM.beg == "-----BEGIN CERTIFICATE-----" && PEM.end == "-----END CERTIFICATE-----"
  {
  }

  lemma {:induction false} PemTextIsText(items: seq<Item>)
    ensures PemText(items) == Text(PEM, items)
    ensures Bodies(PEM, items) == seq(|items|, k requires 0 <= k < |items| => PemBlock(items[k].body))
  {
    PemMarkers();
    if items != [] {
      PemTextIsText(items[1..]);
      assert Block(PEM, items[0].body) == PemBlock(items[0].body);
      PemBlocksTail(items);
    }
  }

  lemma PemBlocksTail(items: seq<Item>)
    requires items != []
    ensures seq(|items|, k requires 0 <= k < |items| => PemBlock(items[k].body)) ==
            [PemBlock(items[0].body)] + seq(|items[1..]|, k requires 0 <= k < |items[1..]| => PemBlock(items[1..][k].body))
  {
    hide PemBlock;
  }

  // Certificates in PEM, joined with text around them, come back exactly, in
  // order, if and only if no body reads "END CERTIFICATE".
  lemma {:induction false} SplitUndoesPemJoin(lead: string, items: seq<Item>)
    requires DashFree(lead) && Plain(items)
    ensures Split(PEM, lead + PemText(items)) == seq(|items|, k requires 0 <= k < |items| => PemBlock(items[k].body))
       <==> forall i :: 0 <= i < |items| ==> items[i].body != "END CERTIFICATE"
  {
    PemShape();
    PemTextIsText(items);
    hide Split, Text, PemText, PemBlock;
    SplitUndoesJoin(PEM, lead, items);
  }

  // A second end marker right behind the first certificate empties the result.
  lemma {:induction false} TouchingEndEmpties(lead: string, body: string, tail: string)
    requires DashFree(lead) && DashFree(body) && body != "END CERTIFICATE"
    ensures Split(PEM, lead + PemBlock(body) + ("-----END CERTIFICATE-----" + tail)) == []
  {
    PemShape();
    PemMarkers();
    var rest := "-----END CERTIFICATE-----" + tail;
    assert lead + PemBlock(body) + rest == Around(PEM, lead, body, rest);
    TouchingEnd(PEM, lead, body, rest);
  }

  lemma TouchingEnd(m: Markers, lead: string, body: string, rest: string)
    requires m.Shaped() && DashFree(lead) && DashFree(body) && body != Confusing(m) && m.end <= rest
    ensures Split(m, Around(m, lead, body, rest)) == []
  {
    hide SplitFrom, DashFree, Confusing;
    AroundStartsAtLead(m, lead, body, rest);
    TouchedFrom(m, lead, body, rest);
  }

  lemma AroundStartsAtLead(m: Markers, lead: string, body: string, rest: string)
    requires m.Shaped() && DashFree(lead) && DashFree(body)
    ensures var w := Around(m, lead, body, rest); |lead| <= |w| && Split(m, w) == SplitFrom(m, w, |lead|, [])
  {
    hide SplitFrom, Find, Around, DashFree, OccursAt;
    var w := Around(m, lead, body, rest);
    assert w[0..] == w;
    FirstEnd(m, w, 0, lead, body, rest);
    FirstBegin(m, lead, body, rest);
  }

  lemma TouchedFrom(m: Markers, lead: string, body: string, rest: string)
    requires m.Shaped() && DashFree(body) && body != Confusing(m) && m.end <= rest
    requires |lead| <= |Around(m, lead, body, rest)|
    ensures SplitFrom(m, Around(m, lead, body, rest), |lead|, []) == []
  {
    hide SplitFrom, Find, Around, DashFree, OccursAt, Confusing;
    SecondEnd(m, lead, body, rest);
    LeadDropped(m, lead, body, rest);
    FirstEndAt(m, Around(m, lead, body, rest), |lead|, body, rest);
    TouchedAt(m, Around(m, lead, body, rest), |lead|, |lead| + 27 + |body|);
  }

  lemma TouchedAt(m: Markers, w: string, n: nat, e: nat)
    requires n <= e && Find(w, m.end, n) == Some(e) && OccursAt(w, m.end, e) && OccursAt(w, m.end, e + |m.end|)
    ensures SplitFrom(m, w, n, []) == []
  {
    hide SplitFrom, Find, HoldsBegin, Add, DashFrom, FirstAt;
    SplitFromStep(m, w, n, e, []);
  }

  lemma FirstEndAt(m: Markers, w: string, n: nat, body: string, rest: string)
    requires m.Shaped() && DashFree(body) && body != Confusing(m) && n <= |w| && w[n..] == Around(m, "", body, rest)
    ensures Find(w, m.end, n) == Some(n + 27 + |body|) && OccursAt(w, m.end, n + 27 + |body|)
  {
    assert DashFree("");
    hide Find, Around, OccursAt, DashFree, Confusing;
    FirstEnd(m, w, n, "", body, rest);
  }

  lemma LeadDropped(m: Markers, lead: string, body: string, rest: string)
    ensures |lead| <= |Around(m, lead, body, rest)|
    ensures Around(m, lead, body, rest)[|lead|..] == Around(m, "", body, rest)
  {
    assert Around(m, lead, body, rest) == lead + (Block(m, body) + rest);
    assert Around(m, "", body, rest) == Block(m, body) + rest;
  }

  lemma SecondEnd(m: Markers, lead: string, body: string, rest: string)
    requires m.Shaped() && m.end <= rest
    ensures OccursAt(Around(m, lead, body, rest), m.end, |lead| + 27 + |body| + 25)
  {
    var w, n := Around(m, lead, body, rest), |lead| + 27 + |body| + 25;
    assert |lead + Block(m, body)| == n;
    forall k | n <= k < n + 25
      ensures w[k] == m.end[k - n]
    {
      assert w[k] == rest[k - n];
    }
  }

  // ---- The root and the topmost certificate ----

  // Distinguished names are compared as wholes.
  datatype Cert = Cert(subject: string, issuer: string)

  predicate SelfIssued(c: Cert) {
    c.subject == c.issuer
  }

  // Some other certificate was issued by c.
  predicate Signs(certs: seq<Cert>, c: Cert) {
    exists i :: 0 <= i < |certs| && certs[i].subject != c.subject && certs[i].issuer == c.subject
  }

  // std::find_if over the certificates.
  method SignsAny(certs: seq<Cert>, c: Cert) returns (found: bool)
    ensures found == Signs(certs, c)
  {
    for i := 0 to |certs|
      invariant forall k :: 0 <= k < i ==> !(certs[k].subject != c.subject && certs[k].issuer == c.subject)
    {
      if certs[i].subject != c.subject && certs[i].issuer == c.subject { return true; }
    }
    return false;
  }

  // parse, the choice of rootCert and topmostCert: the last that qualifies.
  method SelectRoles(certs: seq<Cert>) returns (root: Option<Cert>, topmost: Option<Cert>)
    ensures root == LastSelfIssued(certs, |certs|)
    ensures topmost == LastUnsigning(certs, |certs|)
  {
    root, topmost := None, None;
    for i := 0 to |certs|
      invariant root == LastSelfIssued(certs, i)
    {
      if certs[i].subject == certs[i].issuer {
        root := Some(certs[i]);
      }
    }
    for i := 0 to |certs|
      invariant topmost == LastUnsigning(certs, i)
    {
      var found := SignsAny(certs, certs[i]);
      if !found {
        topmost := Some(certs[i]);
      }
    }
  }

  function LastSelfIssued(certs: seq<Cert>, n: nat): Option<Cert>
    requires n <= |certs|
  {
    if n == 0 then None else if SelfIssued(certs[n - 1]) then Some(certs[n - 1]) else LastSelfIssued(certs, n - 1)
  }

  function LastUnsigning(certs: seq<Cert>, n: nat): Option<Cert>
    requires n <= |certs|
  {
    if n == 0 then None else if !Signs(certs, certs[n - 1]) then Some(certs[n - 1]) else LastUnsigning(certs, n - 1)
  }

  // The last certificate that names itself as its issuer; none if none does.
  lemma {:induction false} RootIsLast(certs: seq<Cert>, n: nat)
    requires n <= |certs|
    ensures match LastSelfIssued(certs, n)
            case None => forall i :: 0 <= i < n ==> certs[i].subject != certs[i].issuer
            case Some(c) => exists i :: 0 <= i < n && certs[i] == c && c.subject == c.issuer &&
                                        forall j :: i < j < n ==> certs[j].subject != certs[j].issuer
  {
    if n > 0 && certs[n - 1].subject != certs[n - 1].issuer { RootIsLast(certs, n - 1); }
  }

  // The last certificate that signs no other; none if each does.
  lemma {:induction false} TopmostIsLast(certs: seq<Cert>, n: nat)
    requires n <= |certs|
    ensures match LastUnsigning(certs, n)
            case None => forall i :: 0 <= i < n ==> Signs(certs, certs[i])
            case Some(c) => exists i :: 0 <= i < n && certs[i] == c && !Signs(certs, c) &&
                                        forall j :: i < j < n ==> Signs(certs, certs[j])
  {
    hide Signs;
    if n > 0 {
      if Signs(certs, certs[n - 1]) { TopmostIsLast(certs, n - 1); }
    }
  }

  // It signs none when no certificate of another name has its name for an issuer.
  lemma {:induction false} SigningMeans(certs: seq<Cert>, c: Cert)
    ensures Signs(certs, c) <==> exists d :: d in certs && d.subject != c.subject && d.issuer == c.subject
  {
    if d :| d in certs && d.subject != c.subject && d.issuer == c.subject {
      var i :| 0 <= i < |certs| && certs[i] == d;
    }
  }

  // From the root, each certificate issued by the one before it.
  predicate Linear(chain: seq<Cert>) {
    && chain != [] && chain[0].subject == chain[0].issuer
    && (forall i :: 1 <= i < |chain| ==> chain[i].issuer == chain[i - 1].subject)
    && (forall i, j :: 0 <= i < j < |chain| ==> chain[i].subject != chain[j].subject)
  }

  lemma {:induction false} OnlySelfIssued(certs: seq<Cert>, n: nat, k: nat, c: Cert)
    requires n <= |certs| && k < n && certs[k] == c && SelfIssued(c)
    requires forall i :: 0 <= i < n && SelfIssued(certs[i]) ==> certs[i] == c
    ensures LastSelfIssued(certs, n) == Some(c)
    decreases n
  {
    if !SelfIssued(certs[n - 1]) { OnlySelfIssued(certs, n - 1, k, c); }
  }

  lemma {:induction false} OnlyUnsigning(certs: seq<Cert>, n: nat, k: nat, c: Cert)
    requires n <= |certs| && k < n && certs[k] == c && !Signs(certs, c)
    requires forall i :: 0 <= i < n && !Signs(certs, certs[i]) ==> certs[i] == c
    ensures LastUnsigning(certs, n) == Some(c)
    decreases n
  {
    if Signs(certs, certs[n - 1]) { OnlyUnsigning(certs, n - 1, k, c); }
  }

  // In whatever order the certificates of a linear chain arrive, the roles go to
  // its two ends.
  lemma {:induction false} RolesIgnoreOrder(chain: seq<Cert>, certs: seq<Cert>)
    requires Linear(chain) && multiset(certs) == multiset(chain)
    ensures LastSelfIssued(certs, |certs|) == Some(chain[0])
    ensures LastUnsigning(certs, |certs|) == Some(chain[|chain| - 1])
  {
    SameMembers(chain, certs);
    var first, last := chain[0], chain[|chain| - 1];
    assert first in certs && last in certs;
    var k :| 0 <= k < |certs| && certs[k] == first;
    forall c | c in certs
      ensures SelfIssued(c) <==> c == first
      ensures Signs(certs, c) <==> c != last
    {
      ChainRoles(chain, certs, c);
    }
    OnlySelfIssued(certs, |certs|, k, first);
    var l :| 0 <= l < |certs| && certs[l] == last;
    OnlyUnsigning(certs, |certs|, l, last);
  }

  lemma SameMembers(chain: seq<Cert>, certs: seq<Cert>)
    requires multiset(certs) == multiset(chain)
    ensures forall c :: c in certs <==> c in chain
  {
    assert forall c :: c in certs <==> c in multiset(certs);
    assert forall c :: c in chain <==> c in multiset(chain);
  }

  lemma ChainRoles(chain: seq<Cert>, certs: seq<Cert>, c: Cert)
    requires Linear(chain) && c in chain && forall d :: d in certs <==> d in chain
    ensures SelfIssued(c) <==> c == chain[0]
    ensures Signs(certs, c) <==> c != chain[|chain| - 1]
  {
    var i :| 0 <= i < |chain| && chain[i] == c;
    assert i >= 1 ==> chain[i].issuer == chain[i - 1].subject;
    if i < |chain| - 1 {
      assert chain[i + 1] in certs;
      var k :| 0 <= k < |certs| && certs[k] == chain[i + 1];
    }
    if Signs(certs, c) {
      var k :| 0 <= k < |certs| && certs[k].subject != c.subject && certs[k].issuer == c.subject;
      assert certs[k] in chain;
      var j :| 0 <= j < |chain| && chain[j] == certs[k];
      assert j >= 1 && chain[j - 1].subject == chain[i].subject;
      assert j - 1 == i;
    }
  }
}
