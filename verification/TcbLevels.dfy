// TCB levels: how a document's levels are ordered, when a document is accepted,
// and which level an SVN selects.
module TcbLevels {
  import opened Wrappers

  // std::vector's operator>: the first difference decides, then the length.
  predicate VectorGreater(a: seq<int>, b: seq<int>) {
    if a == [] then false
    else if b == [] then true
    else if a[0] != b[0] then a[0] > b[0]
    else VectorGreater(a[1..], b[1..])
  }

  lemma {:induction false} GreaterIsAsymmetric(a: seq<int>, b: seq<int>)
    ensures !(VectorGreater(a, b) && VectorGreater(b, a))
    decreases |a|
  {
    if a != [] && b != [] { GreaterIsAsymmetric(a[1..], b[1..]); }
  }

  lemma {:induction false} GreaterIsTotal(a: seq<int>, b: seq<int>)
    ensures a == b || VectorGreater(a, b) || VectorGreater(b, a)
    ensures a == b ==> !VectorGreater(a, b)
    decreases |a|
  {
    if a != [] && b != [] {
      GreaterIsTotal(a[1..], b[1..]);
      assert a == [a[0]] + a[1..] && b == [b[0]] + b[1..];
    }
  }

  lemma {:induction false} GreaterIsTransitive(a: seq<int>, b: seq<int>, c: seq<int>)
    requires VectorGreater(a, b) && VectorGreater(b, c)
    ensures VectorGreater(a, c)
    decreases |a|
  {
    if a != [] && b != [] && c != [] && a[0] == b[0] == c[0] { GreaterIsTransitive(a[1..], b[1..], c[1..]); }
  }

  lemma {:induction false} GreaterOfConcat(a: seq<int>, b: seq<int>, x: seq<int>, y: seq<int>)
    requires |a| == |b|
    ensures VectorGreater(a + x, b + y) <==> if a == b then VectorGreater(x, y) else VectorGreater(a, b)
    decreases |a|
  {
    if a == [] {
      assert a + x == x && b + y == y;
    } else {
      GreaterOfConcat(a[1..], b[1..], x, y);
      assert (a + x)[1..] == a[1..] + x && (b + y)[1..] == b[1..] + y;
      assert a == [a[0]] + a[1..] && b == [b[0]] + b[1..];
    }
  }

  // Of two vectors of one length the greater is so at the first difference.
  lemma {:induction false} GreaterAtFirstDifference(a: seq<int>, b: seq<int>)
    requires |a| == |b|
    ensures VectorGreater(a, b) <==> exists i :: 0 <= i < |a| && a[..i] == b[..i] && a[i] > b[i]
    decreases |a|
  {
    if a != [] {
      GreaterAtFirstDifference(a[1..], b[1..]);
      if a[0] > b[0] {
        assert a[..0] == b[..0];
      } else if a[0] == b[0] {
        TailDifference(a, b);
      } else {
        forall i | 0 <= i < |a|
          ensures a[..i] != b[..i] || a[i] <= b[i]
        {
          if i > 0 { assert a[..i][0] == a[0] && b[..i][0] == b[0]; }
        }
      }
    }
  }

  lemma TailDifference(a: seq<int>, b: seq<int>)
    requires |a| == |b| && a != [] && a[0] == b[0]
    ensures (exists i :: 0 <= i < |a| && a[..i] == b[..i] && a[i] > b[i])
       <==> exists i :: 0 <= i < |a[1..]| && a[1..][..i] == b[1..][..i] && a[1..][i] > b[1..][i]
  {
    forall i | 0 <= i < |a[1..]|
      ensures a[1..][..i] == b[1..][..i] <==> a[..i + 1] == b[..i + 1]
    {
      assert a[..i + 1] == [a[0]] + a[1..][..i] && b[..i + 1] == [b[0]] + b[1..][..i];
      assert a[..i + 1][1..] == a[1..][..i] && b[..i + 1][1..] == b[1..][..i];
    }
    if i :| 0 <= i < |a[1..]| && a[1..][..i] == b[1..][..i] && a[1..][i] > b[1..][i] {
      assert a[..i + 1] == b[..i + 1] && a[i + 1] > b[i + 1];
    }
    if i :| 0 <= i < |a| && a[..i] == b[..i] && a[i] > b[i] {
      assert a[1..][..i - 1] == b[1..][..i - 1] && a[1..][i - 1] > b[1..][i - 1];
    }
  }

  // ---- The two kinds of level ----

  datatype IdentityTcbLevel = IdentityTcbLevel(isvSvn: int, tcbDate: int, tcbStatus: string, advisoryIds: seq<string>)

  predicate IdentityGreater(a: IdentityTcbLevel, b: IdentityTcbLevel) {
    if a.isvSvn == b.isvSvn then a.tcbDate > b.tcbDate else a.isvSvn > b.isvSvn
  }

  function IdentityKey(l: IdentityTcbLevel): seq<int> {
    [l.isvSvn, l.tcbDate]
  }

  datatype TcbLevel = TcbLevel(version: int, id: string, cpuSvn: seq<int>, pceSvn: int, tdxComponents: seq<int>,
                               tcbDate: int, status: string)

  const TDX_ID: string := "TDX"

  predicate TcbGreater(a: TcbLevel, b: TcbLevel) {
    if a.cpuSvn == b.cpuSvn then
      if a.version == 3 && a.id == TDX_ID && a.pceSvn == b.pceSvn then VectorGreater(a.tdxComponents, b.tdxComponents)
      else a.pceSvn > b.pceSvn
    else VectorGreater(a.cpuSvn, b.cpuSvn)
  }

  function TcbKey(l: TcbLevel): seq<int> {
    l.cpuSvn + [l.pceSvn] + if l.version == 3 && l.id == TDX_ID then l.tdxComponents else []
  }

  // Levels of one document share version and identifier, and have as many
  // components as each other.
  predicate SameDocument(a: TcbLevel, b: TcbLevel) {
    a.version == b.version && a.id == b.id && |a.cpuSvn| == |b.cpuSvn| && |a.tdxComponents| == |b.tdxComponents|
  }

  // Which field decides: the first CPU SVN that differs, then the PCE SVN, then,
  // for a TDX level of version 3 only, the first TDX component that differs.
  lemma {:induction false} TcbGreaterMeans(a: TcbLevel, b: TcbLevel)
    requires SameDocument(a, b)
    ensures TcbGreater(a, b) <==>
              || (exists i :: 0 <= i < |a.cpuSvn| && a.cpuSvn[..i] == b.cpuSvn[..i] && a.cpuSvn[i] > b.cpuSvn[i])
              || (a.cpuSvn == b.cpuSvn && a.pceSvn > b.pceSvn)
              || (&& a.cpuSvn == b.cpuSvn && a.pceSvn == b.pceSvn && a.version == 3 && a.id == "TDX"
                  && exists i :: 0 <= i < |a.tdxComponents| && a.tdxComponents[..i] == b.tdxComponents[..i] &&
                                 a.tdxComponents[i] > b.tdxComponents[i])
  {
    hide VectorGreater;
    GreaterAtFirstDifference(a.cpuSvn, b.cpuSvn);
    GreaterAtFirstDifference(a.tdxComponents, b.tdxComponents);
    GreaterIsTotal(a.cpuSvn, b.cpuSvn);
  }

  lemma IdentityOrder(a: IdentityTcbLevel, b: IdentityTcbLevel)
    ensures IdentityGreater(a, b) <==> VectorGreater(IdentityKey(a), IdentityKey(b))
    ensures IdentityGreater(a, b) <==> a.isvSvn > b.isvSvn || (a.isvSvn == b.isvSvn && a.tcbDate > b.tcbDate)
    ensures IdentityKey(a) == IdentityKey(b) <==> a.isvSvn == b.isvSvn && a.tcbDate == b.tcbDate
  {
    assert IdentityKey(a)[1..] == [a.tcbDate] && IdentityKey(b)[1..] == [b.tcbDate];
    OneElement(a.tcbDate, b.tcbDate);
    assert IdentityKey(a)[0] == a.isvSvn && IdentityKey(b)[0] == b.isvSvn;
    assert IdentityKey(a)[1] == a.tcbDate && IdentityKey(b)[1] == b.tcbDate;
  }

  // Within a document the level comparison is the vector comparison of the keys,
  // and so a strict total order on them.
  lemma {:induction false} TcbOrder(a: TcbLevel, b: TcbLevel)
    requires SameDocument(a, b)
    ensures TcbGreater(a, b) <==> VectorGreater(TcbKey(a), TcbKey(b))
    ensures TcbKey(a) == TcbKey(b) || TcbGreater(a, b) || TcbGreater(b, a)
    ensures !(TcbGreater(a, b) && TcbGreater(b, a)) && (TcbKey(a) == TcbKey(b) ==> !TcbGreater(a, b))
  {
    TcbOrderOneWay(a, b);
    TcbOrderOneWay(b, a);
    GreaterIsTotal(TcbKey(a), TcbKey(b));
    GreaterIsAsymmetric(TcbKey(a), TcbKey(b));
  }

  lemma TcbOrderOneWay(a: TcbLevel, b: TcbLevel)
    requires SameDocument(a, b)
    ensures TcbGreater(a, b) <==> VectorGreater(TcbKey(a), TcbKey(b))
  {
    var x := if a.version == 3 && a.id == TDX_ID then a.tdxComponents else [];
    var y := if b.version == 3 && b.id == TDX_ID then b.tdxComponents else [];
    assert TcbKey(a) == a.cpuSvn + ([a.pceSvn] + x) && TcbKey(b) == b.cpuSvn + ([b.pceSvn] + y);
    GreaterOfConcat(a.cpuSvn, b.cpuSvn, [a.pceSvn] + x, [b.pceSvn] + y);
    GreaterOfConcat([a.pceSvn], [b.pceSvn], x, y);
    OneElement(a.pceSvn, b.pceSvn);
  }

  lemma OneElement(x: int, y: int)
    ensures VectorGreater([x], [y]) <==> x > y
  {
    assert [x][1..] == [] && [y][1..] == [];
  }

  lemma TailDominates(a: seq<int>, b: seq<int>)
    requires |a| == |b| && a != [] && forall i :: 0 <= i < |a| ==> a[i] >= b[i]
    ensures forall i :: 0 <= i < |a[1..]| ==> a[1..][i] >= b[1..][i]
  {
    forall i | 0 <= i < |a[1..]|
      ensures a[1..][i] >= b[1..][i]
    {
      assert a[1..][i] == a[i + 1] && b[1..][i] == b[i + 1];
    }
  }

  // A level whose every SVN is at least another's is never below it.
  lemma {:induction false} DominanceRespected(a: seq<int>, b: seq<int>)
    requires |a| == |b| && forall i :: 0 <= i < |a| ==> a[i] >= b[i]
    ensures a == b || VectorGreater(a, b)
    decreases |a|
  {
    if a != [] {
      TailDominates(a, b);
      DominanceRespected(a[1..], b[1..]);
      assert a == [a[0]] + a[1..] && b == [b[0]] + b[1..];
    }
  }

  // Within a document, a level with at least the SVNs of another is equal to it
  // in every SVN or above it.
  lemma TcbDominanceRespected(a: TcbLevel, b: TcbLevel)
    requires SameDocument(a, b) && a.pceSvn >= b.pceSvn
    requires forall i :: 0 <= i < |a.cpuSvn| ==> a.cpuSvn[i] >= b.cpuSvn[i]
    requires forall i :: 0 <= i < |a.tdxComponents| ==> a.tdxComponents[i] >= b.tdxComponents[i]
    ensures TcbKey(a) == TcbKey(b) || TcbGreater(a, b)
    ensures !TcbGreater(b, a)
  {
    DominanceRespected(TcbKey(a), TcbKey(b));
    GreaterIsTotal(TcbKey(b), TcbKey(a));
    TcbOrder(a, b);
    TcbOrder(b, a);
  }

  // ---- The ordered set ----

  // Descending, without equal keys: the iteration order of a std::set with
  // std::greater.
  ghost predicate Descending<T(!new)>(s: seq<T>, key: T -> seq<int>) {
    forall i, j :: 0 <= i < j < |s| ==> VectorGreater(key(s[i]), key(s[j]))
  }

  // The comparison orders these levels as the vectors of their keys.
  ghost predicate OrdersByKey<T(!new)>(greater: (T, T) -> bool, key: T -> seq<int>, levels: multiset<T>) {
    forall a, b :: a in levels && b in levels ==> (greater(a, b) <==> VectorGreater(key(a), key(b)))
  }

  // emplace: the set with x in its place, or None when an equivalent level is
  // there, one that is neither above nor below it.
  function Emplace<T>(s: seq<T>, x: T, greater: (T, T) -> bool): Option<seq<T>> {
    if s == [] || greater(x, s[0]) then Some([x] + s)
    else if greater(s[0], x) then
      match Emplace(s[1..], x, greater)
      case None => None
      case Some(t) => Some([s[0]] + t)
    else None
  }

  lemma {:induction false} EmplaceCorrect<T(!new)>(s: seq<T>, x: T, greater: (T, T) -> bool, key: T -> seq<int>)
    requires Descending(s, key) && OrdersByKey(greater, key, multiset(s) + multiset{x})
    ensures match Emplace(s, x, greater)
            case None => exists i :: 0 <= i < |s| && key(s[i]) == key(x)
            case Some(t) =>
              && Descending(t, key) && multiset(t) == multiset(s) + multiset{x}
              && forall i :: 0 <= i < |s| ==> key(s[i]) != key(x)
    decreases |s|
  {
    hide VectorGreater;
    if s == [] {
    } else if greater(x, s[0]) {
      AboveAll(s, x, key);
    } else if greater(s[0], x) {
      assert s == [s[0]] + s[1..];
      EmplaceCorrect(s[1..], x, greater, key);
      GreaterIsTotal(key(s[0]), key(x));
      if Emplace(s[1..], x, greater).Some? {
        var t := Emplace(s[1..], x, greater).value;
        HeadGreatest(s, t, x, key);
      } else {
        var i :| 0 <= i < |s[1..]| && key(s[1..][i]) == key(x);
        assert key(s[i + 1]) == key(x);
      }
    } else {
      GreaterIsTotal(key(s[0]), key(x));
    }
  }

  lemma AboveAll<T(!new)>(s: seq<T>, x: T, key: T -> seq<int>)
    requires s != [] && Descending(s, key) && VectorGreater(key(x), key(s[0]))
    ensures Descending([x] + s, key) && multiset([x] + s) == multiset(s) + multiset{x}
    ensures forall i :: 0 <= i < |s| ==> key(s[i]) != key(x)
  {
    hide VectorGreater;
    forall j | 0 <= j < |s|
      ensures VectorGreater(key(x), key(s[j])) && key(s[j]) != key(x)
    {
      if j > 0 { GreaterIsTransitive(key(x), key(s[0]), key(s[j])); }
      GreaterIsTotal(key(s[j]), key(x));
    }
  }

  lemma HeadGreatest<T(!new)>(s: seq<T>, t: seq<T>, x: T, key: T -> seq<int>)
    requires s != [] && Descending(s, key) && Descending(t, key) && multiset(t) == multiset(s[1..]) + multiset{x}
    requires VectorGreater(key(s[0]), key(x))
    ensures Descending([s[0]] + t, key) && multiset([s[0]] + t) == multiset(s) + multiset{x}
  {
    forall j | 0 <= j < |t|
      ensures VectorGreater(key(s[0]), key(t[j]))
    {
      assert t[j] in multiset(s[1..]) + multiset{x};
      if t[j] != x {
        assert t[j] in s[1..];
        var k :| 0 <= k < |s[1..]| && s[1..][k] == t[j];
        assert s[k + 1] == t[j];
      }
    }
    assert s == [s[0]] + s[1..];
  }

  ghost predicate Distinct<T(!new)>(document: seq<T>, key: T -> seq<int>) {
    forall i, j :: 0 <= i < j < |document| ==> key(document[i]) != key(document[j])
  }

  // The insertion loops of EnclaveIdentity and TcbInfo: accepted exactly when
  // there are levels and no two have the same key.
  method LoadLevels<T(!new)>(document: seq<T>, greater: (T, T) -> bool, ghost key: T -> seq<int>)
      returns (r: Option<seq<T>>)
    requires OrdersByKey(greater, key, multiset(document))
    ensures r.Some? <==> document != [] && Distinct(document, key)
    ensures r.Some? ==> Descending(r.value, key) && multiset(r.value) == multiset(document)
  {
    var levels: seq<T> := [];
    var index := 0;
    while index < |document|
      invariant 0 <= index <= |document|
      invariant Descending(levels, key) && multiset(levels) == multiset(document[..index])
      invariant Distinct(document[..index], key)
    {
      NextDistinct(document, index, levels, key);
      SomeOfAll(document, index + 1);
      EmplaceCorrect(levels, document[index], greater, key);
      var inserted := Emplace(levels, document[index], greater);
      if inserted == None {
        return None;
      }
      levels := inserted.value;
      index := index + 1;
    }
    assert document[..index] == document;
    assert |levels| == |multiset(levels)| == |document|;
    if levels == [] {
      return None;
    }
    return Some(levels);
  }

  lemma SomeOfAll<T>(document: seq<T>, n: nat)
    requires n <= |document|
    ensures multiset(document[..n]) <= multiset(document)
  {
    assert document == document[..n] + document[n..];
  }

  // The levels of a TCB info, ordered by TcbLevel's comparison: accepted exactly
  // when of any two levels one is above the other.
  method LoadTcbLevels(document: seq<TcbLevel>) returns (r: Option<seq<TcbLevel>>)
    requires forall a, b :: a in document && b in document ==> SameDocument(a, b)
    ensures r.Some? <==>
              && document != []
              && forall i, j :: 0 <= i < j < |document| ==>
                   TcbGreater(document[i], document[j]) || TcbGreater(document[j], document[i])
    ensures r.Some? ==> multiset(r.value) == multiset(document)
    ensures r.Some? ==> forall i, j :: 0 <= i < j < |r.value| ==> TcbGreater(r.value[i], r.value[j])
  {
    hide VectorGreater, TcbGreater, TcbKey;
    forall a, b | a in multiset(document) && b in multiset(document)
      ensures TcbGreater(a, b) <==> VectorGreater(TcbKey(a), TcbKey(b))
      ensures TcbKey(a) == TcbKey(b) <==> !TcbGreater(a, b) && !TcbGreater(b, a)
    {
      TcbOrder(a, b);
      TcbOrder(b, a);
    }
    r := LoadLevels(document, TcbGreater, TcbKey);
    if r.Some? {
      forall k | 0 <= k < |r.value|
        ensures r.value[k] in multiset(document)
      {
        assert r.value[k] in multiset(r.value);
      }
    }
  }

  // The levels of an enclave identity, ordered by IdentityTcbLevel's comparison.
  method LoadIdentityLevels(document: seq<IdentityTcbLevel>) returns (r: Option<seq<IdentityTcbLevel>>)
    ensures r.Some? <==>
              && document != []
              && forall i, j :: 0 <= i < j < |document| ==>
                   document[i].isvSvn != document[j].isvSvn || document[i].tcbDate != document[j].tcbDate
    ensures r.Some? ==> multiset(r.value) == multiset(document) && Descending(r.value, IdentityKey)
    ensures r.Some? ==> forall i, j :: 0 <= i < j < |r.value| ==>
                          r.value[i].isvSvn > r.value[j].isvSvn ||
                          (r.value[i].isvSvn == r.value[j].isvSvn && r.value[i].tcbDate > r.value[j].tcbDate)
  {
    IdentitiesOrdered(multiset(document));
    DistinctIdentities(document);
    hide VectorGreater, IdentityGreater, IdentityKey, Distinct, Descending, OrdersByKey;
    r := LoadLevels(document, IdentityGreater, IdentityKey);
    if r.Some? { DescendingIdentities(r.value); }
  }

  lemma IdentitiesOrdered(levels: multiset<IdentityTcbLevel>)
    ensures OrdersByKey(IdentityGreater, IdentityKey, levels)
  {
    hide VectorGreater, IdentityGreater, IdentityKey;
    forall a, b | a in levels && b in levels
      ensures IdentityGreater(a, b) <==> VectorGreater(IdentityKey(a), IdentityKey(b))
    {
      IdentityOrder(a, b);
    }
  }

  lemma DistinctIdentities(document: seq<IdentityTcbLevel>)
    ensures Distinct(document, IdentityKey) <==>
              forall i, j :: 0 <= i < j < |document| ==>
                document[i].isvSvn != document[j].isvSvn || document[i].tcbDate != document[j].tcbDate
  {
    hide VectorGreater, IdentityGreater, IdentityKey;
    forall i, j | 0 <= i < j < |document|
      ensures IdentityKey(document[i]) == IdentityKey(document[j]) <==>
                document[i].isvSvn == document[j].isvSvn && document[i].tcbDate == document[j].tcbDate
    {
      IdentityOrder(document[i], document[j]);
    }
  }

  lemma DescendingIdentities(s: seq<IdentityTcbLevel>)
    requires Descending(s, IdentityKey)
    ensures forall i, j :: 0 <= i < j < |s| ==>
              s[i].isvSvn > s[j].isvSvn || (s[i].isvSvn == s[j].isvSvn && s[i].tcbDate > s[j].tcbDate)
  {
    hide VectorGreater, IdentityGreater, IdentityKey;
    forall i, j | 0 <= i < j < |s|
      ensures s[i].isvSvn > s[j].isvSvn || (s[i].isvSvn == s[j].isvSvn && s[i].tcbDate > s[j].tcbDate)
    {
      IdentityOrder(s[i], s[j]);
    }
  }

  lemma NextDistinct<T(!new)>(document: seq<T>, n: nat, levels: seq<T>, key: T -> seq<int>)
    requires n < |document| && multiset(levels) == multiset(document[..n]) && Distinct(document[..n], key)
    ensures (exists i :: 0 <= i < |levels| && key(levels[i]) == key(document[n])) ==> !Distinct(document, key)
    ensures (forall i :: 0 <= i < |levels| ==> key(levels[i]) != key(document[n])) ==> Distinct(document[..n + 1], key)
    ensures multiset(document[..n + 1]) == multiset(document[..n]) + multiset{document[n]}
  {
    assert document[..n + 1] == document[..n] + [document[n]];
    forall i | 0 <= i < |levels|
      ensures exists j :: 0 <= j < n && document[j] == levels[i]
    {
      assert levels[i] in multiset(document[..n]);
      var j :| 0 <= j < n && document[..n][j] == levels[i];
      assert document[j] == levels[i];
    }
    forall j | 0 <= j < n
      ensures exists i :: 0 <= i < |levels| && levels[i] == document[j]
    {
      assert document[..n][j] in multiset(levels);
    }
  }

  // The stored order does not depend on the order of the document.
  lemma {:induction false} DescendingUnique<T(!new)>(s: seq<T>, t: seq<T>, key: T -> seq<int>)
    requires Descending(s, key) && Descending(t, key) && multiset(s) == multiset(t)
    ensures s == t
    decreases |s|
  {
    assert |s| == |multiset(s)| == |multiset(t)| == |t|;
    if s != [] {
      HeadsAgree(s, t, key);
      TailMultiset(s);
      TailMultiset(t);
      DescendingUnique(s[1..], t[1..], key);
      assert s == [s[0]] + s[1..] && t == [t[0]] + t[1..];
    }
  }

  lemma TailMultiset<T>(s: seq<T>)
    requires s != []
    ensures multiset(s[1..]) == multiset(s) - multiset{s[0]}
  {
    assert s == [s[0]] + s[1..];
  }

  lemma HeadsAgree<T(!new)>(s: seq<T>, t: seq<T>, key: T -> seq<int>)
    requires Descending(s, key) && Descending(t, key) && multiset(s) == multiset(t) && s != [] && t != []
    ensures s[0] == t[0]
  {
    assert s[0] in multiset(t) && t[0] in multiset(s);
    var i :| 0 <= i < |t| && t[i] == s[0];
    var j :| 0 <= j < |s| && s[j] == t[0];
    if i > 0 && j > 0 { GreaterIsAsymmetric(key(s[0]), key(t[0])); }
  }

  // ---- EnclaveIdentity::getTcbLevel ----

  // The best of the levels not above isvSvn: of the greatest SVN among them, the
  // newest.
  ghost predicate BestAtMost(levels: seq<IdentityTcbLevel>, isvSvn: int, l: IdentityTcbLevel) {
    && l in levels && l.isvSvn <= isvSvn
    && forall k :: k in levels && k.isvSvn <= isvSvn && k != l ==>
         k.isvSvn < l.isvSvn || (k.isvSvn == l.isvSvn && k.tcbDate < l.tcbDate)
  }

  // The first match in descending order is the level with the greatest SVN not
  // above the given one, and the newest of those; None stands for the exception.
  method GetTcbLevel(levels: seq<IdentityTcbLevel>, isvSvn: int) returns (r: Option<IdentityTcbLevel>)
    requires Descending(levels, IdentityKey)
    ensures r.Some? ==> BestAtMost(levels, isvSvn, r.value)
    ensures r.None? ==> forall l :: l in levels ==> l.isvSvn > isvSvn
  {
    for i := 0 to |levels|
      invariant forall k :: 0 <= k < i ==> levels[k].isvSvn > isvSvn
    {
      if levels[i].isvSvn <= isvSvn {
        forall k | k in levels && k.isvSvn <= isvSvn && k != levels[i]
          ensures k.isvSvn < levels[i].isvSvn || (k.isvSvn == levels[i].isvSvn && k.tcbDate < levels[i].tcbDate)
        {
          var j :| 0 <= j < |levels| && levels[j] == k;
          assert j > i;
          IdentityOrder(levels[i], k);
        }
        return Some(levels[i]);
      }
    }
    return None;
  }

  // Two documents with the same levels in any order select the same level.
  lemma {:induction false} SelectionIgnoresOrder(s: seq<IdentityTcbLevel>, t: seq<IdentityTcbLevel>, isvSvn: int,
                                                 l: IdentityTcbLevel, k: IdentityTcbLevel)
    requires multiset(s) == multiset(t) && BestAtMost(s, isvSvn, l) && BestAtMost(t, isvSvn, k)
    ensures l == k
  {
    assert l in multiset(t) && k in multiset(s);
  }
}
