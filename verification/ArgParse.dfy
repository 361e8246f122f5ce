// arg_parse_untagged: hands the remaining arguments to the untagged table
// entries in turn, and registers an error for each that none of them takes.
module ArgParse {
  import opened Wrappers

  const ARG_ELIMIT: int := 1
  const ARG_ENOMATCH: int := 3

  // Whose error it is: a table entry's, or the end entry's own.
  datatype Parent = OfEntry(index: nat) | OfEnd

  datatype Record = Record(error: int, parent: Parent, argval: Option<string>)

  // ---- The error table ----

  // The first reports, the last of them giving way to a note that there were more.
  function Limited(reports: seq<Record>, maxcount: nat): seq<Record>
    requires maxcount >= 1
  {
    if |reports| <= maxcount then reports
    else reports[..maxcount - 1] + [Record(ARG_ELIMIT, OfEnd, None)]
  }

  class ArgEnd {
    const maxcount: nat
    var count: nat
    const error: array<int>
    const parent: array<Parent>
    const argval: array<Option<string>>
    ghost var reports: seq<Record>

    constructor (maxcount: nat)
      requires maxcount >= 1
      ensures Valid() && reports == [] && this.maxcount == maxcount && fresh(error) && fresh(parent) && fresh(argval)
    {
      this.maxcount := maxcount;
      count := 0;
      error := new int[maxcount](_ => 0);
      parent := new Parent[maxcount](_ => OfEnd);
      argval := new Option<string>[maxcount](_ => None);
      reports := [];
    }

    ghost predicate Valid()
      reads this, error, parent, argval
    {
      && maxcount >= 1 && error.Length == parent.Length == argval.Length == maxcount && count <= maxcount
      && |Limited(reports, maxcount)| == count
      && forall k :: 0 <= k < count ==> Limited(reports, maxcount)[k] == Record(error[k], parent[k], argval[k])
    }

    // The table: the reports in order; when there were too many, the last place
    // holds error 1 of the end entry.
    lemma {:induction false} TableHolds()
      requires Valid()
      ensures |reports| <= maxcount ==>
                count == |reports| && forall k :: 0 <= k < count ==> reports[k] == Record(error[k], parent[k], argval[k])
      ensures |reports| > maxcount ==>
                && count == maxcount && error[count - 1] == 1 && parent[count - 1] == OfEnd && argval[count - 1] == None
                && forall k :: 0 <= k < count - 1 ==> reports[k] == Record(error[k], parent[k], argval[k])
    {
      if |reports| > maxcount {
        assert Limited(reports, maxcount)[count - 1] == Record(error[count - 1], parent[count - 1], argval[count - 1]);
      }
      assert forall k :: 0 <= k < count ==> Limited(reports, maxcount)[k] == Record(error[k], parent[k], argval[k]);
    }

    // arg_register_error.
    method Register(p: Parent, e: int, a: Option<string>)
      requires Valid()
      modifies this, error, parent, argval
      ensures Valid() && reports == old(reports) + [Record(e, p, a)]
    {
      if count < maxcount {
        error[count] := e;
        parent[count] := p;
        argval[count] := a;
        count := count + 1;
      } else {
        error[maxcount - 1] := ARG_ELIMIT;
        parent[maxcount - 1] := OfEnd;
        argval[maxcount - 1] := None;
      }
      reports := reports + [Record(e, p, a)];
    }
  }

  // ---- The matcher ----

  // An entry of the argument table: whether it has short or long options, and
  // whether it has a scan function. That function is given as one map: entry,
  // values accepted so far and new argument to an error code, 0 to accept.
  datatype Entry = Entry(tagged: bool, hasScan: bool)

  datatype Table = Table(entries: seq<Entry>, scan: (nat, seq<string>, string) -> int)

  predicate Scannable(t: Table, k: nat)
    requires k < |t.entries|
  {
    !t.entries[k].tagged && t.entries[k].hasScan
  }

  // What becomes of an argument.
  datatype Fate = Accepted(entry: nat) | Rejected(why: Record)

  // The fates of args when the matcher stands at entry tab, last being the
  // tentative error of the first of them.
  function Fates(t: Table, values: seq<seq<string>>, args: seq<string>, tab: nat, last: Option<Record>): seq<Fate>
    requires |values| == |t.entries| && tab <= |t.entries|
    decreases |args| + |t.entries| - tab
  {
    if tab == |t.entries| then Leftover(args, last)
    else if args == [] then []
    else if !Scannable(t, tab) then Fates(t, values, args, tab + 1, last)
    else
      var code := t.scan(tab, values[tab], args[0]);
      if code == 0 then
        [Accepted(tab)] + Fates(t, values[tab := values[tab] + [args[0]]], args[1..], tab, None)
      else Fates(t, values, args, tab + 1, Some(Record(code, OfEntry(tab), Some(args[0]))))
  }

  function Leftover(args: seq<string>, last: Option<Record>): seq<Fate> {
    if args == [] then []
    else
      [Rejected(if last.Some? then last.value else Record(ARG_ENOMATCH, OfEnd, Some(args[0])))] +
      Leftover(args[1..], None)
  }

  // The arguments that entry k accepts, and the errors reported, in order.
  function Taken(args: seq<string>, fates: seq<Fate>, k: nat): seq<string>
    requires |args| == |fates|
  {
    if args == [] then []
    else (if fates[0] == Accepted(k) then [args[0]] else []) + Taken(args[1..], fates[1..], k)
  }

  function Reports(fates: seq<Fate>): seq<Record> {
    if fates == [] then []
    else (if fates[0].Rejected? then [fates[0].why] else []) + Reports(fates[1..])
  }

  // Every argument has one fate. Acceptances come first, by entries that never
  // go back; after the first rejection everything is rejected, and a rejection
  // names its argument.
  lemma {:induction false} FatesInOrder(t: Table, values: seq<seq<string>>, args: seq<string>, tab: nat, last: Option<Record>)
    requires |values| == |t.entries| && tab <= |t.entries|
    requires last.Some? ==> args != [] && last.value.argval == Some(args[0]) && last.value.error != 0
    ensures var fates := Fates(t, values, args, tab, last);
            && |fates| == |args|
            && (forall i :: 0 <= i < |fates| ==>
                  match fates[i]
                  case Accepted(k) => tab <= k < |t.entries| && Scannable(t, k)
                  case Rejected(why) => why.error != 0 && why.argval == Some(args[i]))
            && (forall i, j :: 0 <= i < j < |fates| && fates[j].Accepted? ==>
                  fates[i].Accepted? && fates[i].entry <= fates[j].entry)
    decreases |args| + |t.entries| - tab
  {
    if tab == |t.entries| {
      LeftoverRejected(args, last);
    } else if args != [] {
      if !Scannable(t, tab) {
        FatesInOrder(t, values, args, tab + 1, last);
      } else {
        var code := t.scan(tab, values[tab], args[0]);
        if code == 0 {
          FatesInOrder(t, values[tab := values[tab] + [args[0]]], args[1..], tab, None);
        } else {
          FatesInOrder(t, values, args, tab + 1, Some(Record(code, OfEntry(tab), Some(args[0]))));
        }
      }
    }
  }

  lemma {:induction false} LeftoverRejected(args: seq<string>, last: Option<Record>)
    requires last.Some? ==> args != [] && last.value.argval == Some(args[0]) && last.value.error != 0
    ensures var fates := Leftover(args, last);
            |fates| == |args| && forall i :: 0 <= i < |fates| ==>
              fates[i].Rejected? && fates[i].why.error != 0 && fates[i].why.argval == Some(args[i])
    decreases |args|
  {
    if args != [] { LeftoverRejected(args[1..], None); }
  }

  lemma TakenFirst(v: seq<string>, args: seq<string>, fates: seq<Fate>, n: nat, tab: nat, k: nat)
    requires 1 <= n <= |args| == |fates| && fates[0] == Accepted(tab)
    ensures v + Taken(args[..n], fates[..n], k)
         == (if k == tab then v + [args[0]] else v) + Taken(args[1..][..n - 1], fates[1..][..n - 1], k)
  {
    assert args[..n][1..] == args[1..][..n - 1] && fates[..n][1..] == fates[1..][..n - 1];
  }

  // The next argument goes to the first entry, from the current one on, that
  // accepts it with the values it holds; that entry stays the current one.
  lemma {:induction false} AcceptedByFirst(t: Table, values: seq<seq<string>>, args: seq<string>, tab: nat,
                                           last: Option<Record>, k: nat)
    requires |values| == |t.entries| && tab <= k < |t.entries| && args != []
    requires !t.entries[k].tagged && t.entries[k].hasScan
    requires t.scan(k, values[k], args[0]) == 0
    requires forall j :: tab <= j < k && !t.entries[j].tagged && t.entries[j].hasScan ==> t.scan(j, values[j], args[0]) != 0
    ensures Fates(t, values, args, tab, last) ==
            [Accepted(k)] + Fates(t, values[k := values[k] + [args[0]]], args[1..], k, None)
    decreases k - tab
  {
    if tab < k {
      var why := if Scannable(t, tab) then Some(Record(t.scan(tab, values[tab], args[0]), OfEntry(tab), Some(args[0]))) else last;
      AcceptedByFirst(t, values, args, tab + 1, why, k);
    }
  }

  // Arguments that no entry is left for: error 3 of the end entry for each.
  function NoMatches(args: seq<string>): seq<Fate> {
    seq(|args|, j requires 0 <= j < |args| => Rejected(Record(3, OfEnd, Some(args[j]))))
  }

  // When none accepts it, it is rejected with the error of the last entry asked,
  // k, and everything behind it for want of an entry;
  lemma {:induction false} RefusedByAll(t: Table, values: seq<seq<string>>, args: seq<string>, tab: nat,
                                        last: Option<Record>, k: nat)
    requires |values| == |t.entries| && tab <= k < |t.entries| && args != []
    requires !t.entries[k].tagged && t.entries[k].hasScan
    requires forall j :: k < j < |t.entries| ==> t.entries[j].tagged || !t.entries[j].hasScan
    requires forall j :: tab <= j <= k && !t.entries[j].tagged && t.entries[j].hasScan ==> t.scan(j, values[j], args[0]) != 0
    ensures Fates(t, values, args, tab, last) ==
            [Rejected(Record(t.scan(k, values[k], args[0]), OfEntry(k), Some(args[0])))] + NoMatches(args[1..])
    decreases k - tab
  {
    var why := if Scannable(t, tab) then Some(Record(t.scan(tab, values[tab], args[0]), OfEntry(tab), Some(args[0]))) else last;
    if tab < k { RefusedByAll(t, values, args, tab + 1, why, k); } else { NoneAsked(t, values, args, tab + 1, why); }
  }

  // and when no entry could be asked, with the tentative error, if there is one.
  lemma {:induction false} NoneAsked(t: Table, values: seq<seq<string>>, args: seq<string>, tab: nat, last: Option<Record>)
    requires |values| == |t.entries| && tab <= |t.entries| && args != []
    requires forall j :: tab <= j < |t.entries| ==> t.entries[j].tagged || !t.entries[j].hasScan
    ensures Fates(t, values, args, tab, last) ==
            (if last.Some? then [Rejected(last.value)] + NoMatches(args[1..]) else NoMatches(args))
    decreases |t.entries| - tab
  {
    if tab < |t.entries| { NoneAsked(t, values, args, tab + 1, last); } else { LeftoverMeans(args, last); }
  }

  lemma {:induction false} LeftoverMeans(args: seq<string>, last: Option<Record>)
    requires args != []
    ensures Leftover(args, last) == (if last.Some? then [Rejected(last.value)] + NoMatches(args[1..]) else NoMatches(args))
    decreases |args|
  {
    if |args| > 1 { LeftoverMeans(args[1..], None); }
    assert NoMatches(args) == [Rejected(Record(3, OfEnd, Some(args[0])))] + NoMatches(args[1..]);
  }

  // The first argument rejected is one that every entry from the last accepting
  // one on refuses, with the values it holds at that moment.
  lemma {:induction false} FirstRejection(t: Table, values: seq<seq<string>>, args: seq<string>, tab: nat,
                                          last: Option<Record>, n: nat, k: nat)
    requires |values| == |t.entries| && tab <= |t.entries|
    requires var fates := Fates(t, values, args, tab, last);
             && n < |args| && |fates| == |args| && fates[n].Rejected? && forall i :: 0 <= i < n ==> fates[i].Accepted?
    requires (if n == 0 then tab else Fates(t, values, args, tab, last)[n - 1].entry) <= k < |t.entries|
    requires Scannable(t, k)
    ensures t.scan(k, values[k] + Taken(args[..n], Fates(t, values, args, tab, last)[..n], k), args[n]) != 0
    decreases |args| + |t.entries| - tab
  {
    var fates := Fates(t, values, args, tab, last);
    if tab == |t.entries| {
    } else if !Scannable(t, tab) {
      FirstRejection(t, values, args, tab + 1, last, n, k);
    } else {
      var code := t.scan(tab, values[tab], args[0]);
      if code == 0 {
        var values' := values[tab := values[tab] + [args[0]]];
        var rest := Fates(t, values', args[1..], tab, None);
        assert forall i :: 0 <= i < n - 1 ==> rest[i] == fates[i + 1];
        FirstRejection(t, values', args[1..], tab, None, n - 1, k);
        TakenFirst(values[k], args, fates, n, tab, k);
      } else if k == tab && n == 0 {
        assert args[..0] == [] && values[k] + [] == values[k];
      } else {
        FirstRejection(t, values, args, tab + 1, Some(Record(code, OfEntry(tab), Some(args[0]))), n, k);
      }
    }
  }

  // When no entry accepts beyond its limit, no entry ends beyond its limit.
  lemma {:induction false} LimitsKept(t: Table, values: seq<seq<string>>, args: seq<string>, tab: nat, last: Option<Record>,
                                      k: nat, maxcount: nat)
    requires |values| == |t.entries| && tab <= |t.entries| && k < |t.entries|
    requires |Fates(t, values, args, tab, last)| == |args|
    requires forall v: seq<string>, a: string :: |v| >= maxcount ==> t.scan(k, v, a) != 0
    requires |values[k]| <= maxcount
    ensures |values[k]| + |Taken(args, Fates(t, values, args, tab, last), k)| <= maxcount
    decreases |args| + |t.entries| - tab
  {
    var fates := Fates(t, values, args, tab, last);
    if tab == |t.entries| {
      NothingTaken(args, last, k);
    } else if args != [] {
      if !Scannable(t, tab) {
        LimitsKept(t, values, args, tab + 1, last, k, maxcount);
      } else {
        var code := t.scan(tab, values[tab], args[0]);
        if code == 0 {
          var values' := values[tab := values[tab] + [args[0]]];
          assert fates[1..] == Fates(t, values', args[1..], tab, None);
          LimitsKept(t, values', args[1..], tab, None, k, maxcount);
        } else {
          LimitsKept(t, values, args, tab + 1, Some(Record(code, OfEntry(tab), Some(args[0]))), k, maxcount);
        }
      }
    }
  }

  lemma {:induction false} NothingTaken(args: seq<string>, last: Option<Record>, k: nat)
    requires |Leftover(args, last)| == |args|
    ensures Taken(args, Leftover(args, last), k) == []
    decreases |args|
  {
    if args != [] {
      assert Leftover(args, last)[1..] == Leftover(args[1..], None);
      NothingTaken(args[1..], None, k);
    }
  }

  lemma {:induction false} TakenSplit(a: seq<string>, f: seq<Fate>, b: seq<string>, g: seq<Fate>, k: nat)
    requires |a| == |f| && |b| == |g|
    ensures Taken(a + b, f + g, k) == Taken(a, f, k) + Taken(b, g, k)
    decreases |a|
  {
    if a == [] {
      assert a + b == b && f + g == g;
    } else {
      assert (a + b)[1..] == a[1..] + b && (f + g)[1..] == f[1..] + g;
      TakenSplit(a[1..], f[1..], b, g, k);
    }
  }

  lemma {:induction false} ReportsSplit(f: seq<Fate>, g: seq<Fate>)
    ensures Reports(f + g) == Reports(f) + Reports(g)
    decreases |f|
  {
    if f == [] {
      assert f + g == g;
    } else {
      ReportsSplit(f[1..], g);
      assert (f + g)[1..] == f[1..] + g && (f + g)[0] == f[0];
      var first := if f[0].Rejected? then [f[0].why] else [];
      assert first + (Reports(f[1..]) + Reports(g)) == (first + Reports(f[1..])) + Reports(g);
    }
  }

  // Handing out the arguments so far: done are their fates, and the rest of
  // the run decides the others.
  ghost predicate HandedOut(t: Table, values0: seq<seq<string>>, values: seq<seq<string>>, all: seq<string>,
                            n: nat, done: seq<Fate>, tab: nat, last: Option<Record>)
  {
    && |values0| == |values| == |t.entries| && n <= |all| && |done| == n && tab <= |t.entries|
    && Fates(t, values0, all, 0, None) == done + Fates(t, values, all[n..], tab, last)
    && Reports(done) == []
    && (last.Some? ==> n < |all|)
    && forall k :: 0 <= k < |values| ==> values[k] == values0[k] + Taken(all[..n], done, k)
  }

  lemma HandedNone(t: Table, values: seq<seq<string>>, all: seq<string>)
    requires |values| == |t.entries|
    ensures HandedOut(t, values, values, all, 0, [], 0, None)
  {
    assert all[0..] == all;
  }

  lemma {:induction false} HandOut(t: Table, values0: seq<seq<string>>, values: seq<seq<string>>, all: seq<string>,
                                   n: nat, done: seq<Fate>, tab: nat, last: Option<Record>)
    requires HandedOut(t, values0, values, all, n, done, tab, last)
    requires tab < |t.entries| && n < |all| && Scannable(t, tab) && t.scan(tab, values[tab], all[n]) == 0
    ensures HandedOut(t, values0, values[tab := values[tab] + [all[n]]], all, n + 1, done + [Accepted(tab)], tab, None)
  {
    var values' := values[tab := values[tab] + [all[n]]];
    var rest := Fates(t, values', all[n + 1..], tab, None);
    assert all[n..][1..] == all[n + 1..];
    assert done + ([Accepted(tab)] + rest) == (done + [Accepted(tab)]) + rest;
    assert all[..n + 1] == all[..n] + [all[n]];
    ReportsSplit(done, [Accepted(tab)]);
    forall k | 0 <= k < |values|
      ensures values'[k] == values0[k] + Taken(all[..n + 1], done + [Accepted(tab)], k)
    {
      TakenSplit(all[..n], done, [all[n]], [Accepted(tab)], k);
      assert Taken([all[n]], [Accepted(tab)], k) == if k == tab then [all[n]] else [];
    }
  }

  // Every entry holds what the fates give it, and the errors are those that the
  // fates report.
  ghost predicate Distributed(t: Table, values0: seq<seq<string>>, values: seq<seq<string>>, all: seq<string>,
                              errors: seq<Record>)
  {
    && |values0| == |values| == |t.entries|
    && var fates := Fates(t, values0, all, 0, None);
       && |fates| == |all|
       && (forall k :: 0 <= k < |values| ==> values[k] == values0[k] + Taken(all, fates, k))
       && errors == Reports(fates)
  }

  // An entry that is passed over, or that refuses the argument.
  lemma {:induction false} PassOver(t: Table, values0: seq<seq<string>>, values: seq<seq<string>>, all: seq<string>,
                                    n: nat, done: seq<Fate>, tab: nat, last: Option<Record>)
    requires HandedOut(t, values0, values, all, n, done, tab, last)
    requires tab < |t.entries| && n < |all|
    ensures if !Scannable(t, tab) then HandedOut(t, values0, values, all, n, done, tab + 1, last)
            else
              var code := t.scan(tab, values[tab], all[n]);
              code != 0 ==>
                HandedOut(t, values0, values, all, n, done, tab + 1, Some(Record(code, OfEntry(tab), Some(all[n]))))
  {
  }

  lemma {:induction false} HandedAll(t: Table, values0: seq<seq<string>>, values: seq<seq<string>>, all: seq<string>,
                                     n: nat, done: seq<Fate>, tab: nat, last: Option<Record>)
    requires HandedOut(t, values0, values, all, n, done, tab, last)
    requires n == |all| || tab == |t.entries|
    ensures Distributed(t, values0, values, all, Reports(Leftover(all[n..], last)))
  {
    var left := Leftover(all[n..], last);
    var fates := Fates(t, values0, all, 0, None);
    assert fates == done + left by {
      if n == |all| { assert all[n..] == [] && Fates(t, values, all[n..], tab, last) == [] == left; }
    }
    assert all == all[..n] + all[n..];
    ReportsSplit(done, left);
    LeftoverLength(all[n..], last);
    forall k | 0 <= k < |values|
      ensures values[k] == values0[k] + Taken(all, fates, k)
    {
      TakenSplit(all[..n], done, all[n..], left, k);
      NothingTaken(all[n..], last, k);
    }
  }

  lemma {:induction false} LeftoverLength(args: seq<string>, last: Option<Record>)
    ensures |Leftover(args, last)| == |args|
    decreases |args|
  {
    if args != [] { LeftoverLength(args[1..], None); }
  }

  // The table entries' own counters and values.
  class Untagged {
    const t: Table
    const values: array<seq<string>>
    const argv: seq<string>
    var optind: nat

    constructor (t: Table, argv: seq<string>, optind: nat)
      ensures this.t == t && this.argv == argv && this.optind == optind
      ensures fresh(values) && values.Length == |t.entries| && forall k :: 0 <= k < values.Length ==> values[k] == []
    {
      this.t, this.argv, this.optind := t, argv, optind;
      values := new seq<string>[|t.entries|](_ => []);
    }

    // One round of the loop over the table: entry tabindex and argument optind.
    method Offer(tabindex: nat, errorlast0: int, parentlast0: Parent, optarglast0: Option<string>,
                 ghost values0: seq<seq<string>>, ghost first: nat, ghost done0: seq<Fate>)
      returns (tab: nat, errorlast: int, parentlast: Parent, optarglast: Option<string>, ghost done: seq<Fate>)
      requires values.Length == |t.entries| && first <= optind < |argv| && tabindex < |t.entries|
      requires HandedOut(t, values0, values[..], argv[first..], optind - first, done0, tabindex,
                         Tentative(errorlast0, parentlast0, optarglast0))
      modifies values, `optind
      ensures old(optind) <= optind <= |argv| && tabindex <= tab <= |t.entries|
      ensures optind + tab == old(optind) + tabindex + 1
      ensures HandedOut(t, values0, values[..], argv[first..], optind - first, done, tab,
                        Tentative(errorlast, parentlast, optarglast))
    {
      hide Fates, Taken, Reports, HandedOut;
      tab, errorlast, parentlast, optarglast, done := tabindex, errorlast0, parentlast0, optarglast0, done0;
      ghost var last := Tentative(errorlast0, parentlast0, optarglast0);
      PassOver(t, values0, values[..], argv[first..], optind - first, done, tab, last);
      if t.entries[tab].tagged {
        tab := tab + 1;
        return;
      }
      if !t.entries[tab].hasScan {
        tab := tab + 1;
        return;
      }
      var errorcode := t.scan(tab, values[tab], argv[optind]);
      if errorcode == 0 {
        HandOut(t, values0, values[..], argv[first..], optind - first, done, tab, last);
        done := done + [Accepted(tab)];
        values[tab] := values[tab] + [argv[optind]];
        optind := optind + 1;
        errorlast := 0;
      } else {
        tab := tab + 1;
        errorlast := errorcode;
        optarglast := Some(argv[optind]);
        parentlast := OfEntry(tabindex);
      }
    }

    // arg_parse_untagged, the loop over the table.
    method HandOutAll() returns (errorlast: int, parentlast: Parent, optarglast: Option<string>)
      requires values.Length == |t.entries| && optind <= |argv|
      modifies values, `optind
      ensures old(optind) <= optind <= |argv|
      ensures Distributed(t, old(values[..]), values[..], argv[old(optind)..],
                          Reports(Leftover(argv[optind..], Tentative(errorlast, parentlast, optarglast))))
      ensures errorlast != 0 ==> optind < |argv|
    {
      hide Fates, Reports, Leftover, Taken, Distributed;
      var tabindex := 0;
      errorlast, optarglast, parentlast := 0, None, OfEnd;
      ghost var first, done, values0 := optind, [], values[..];
      HandedNone(t, values0, argv[first..]);
      while tabindex < |t.entries|
        invariant first <= optind <= |argv| && tabindex <= |t.entries|
        invariant HandedOut(t, values0, values[..], argv[first..], optind - first, done, tabindex,
                            Tentative(errorlast, parentlast, optarglast))
        decreases |argv| - optind + |t.entries| - tabindex
      {
        if optind >= |argv| {
          break;
        }
        tabindex, errorlast, parentlast, optarglast, done :=
          Offer(tabindex, errorlast, parentlast, optarglast, values0, first, done);
      }
      HandedAll(t, values0, values[..], argv[first..], optind - first, done, tabindex,
                Tentative(errorlast, parentlast, optarglast));
      assert argv[first..][optind - first..] == argv[optind..];
    }

    // arg_parse_untagged.
    method ParseUntagged(end: ArgEnd)
      requires values.Length == |t.entries| && end.Valid()
      modifies values, `optind, end, end.error, end.parent, end.argval
      ensures end.Valid() && optind >= |argv| && |end.reports| >= |old(end.reports)|
      ensures end.reports[..|old(end.reports)|] == old(end.reports)
      ensures Distributed(t, old(values[..]), values[..], if old(optind) <= |argv| then argv[old(optind)..] else [],
                          end.reports[|old(end.reports)|..])
    {
      if optind > |argv| {
        // The first pass over the table finds nothing to hand out.
        FatesInOrder(t, values[..], [], 0, None);
        return;
      }
      var errorlast, parentlast, optarglast := HandOutAll();
      ReportRest(end, errorlast, parentlast, optarglast);
    }

    // arg_parse_untagged, what follows the loop over the table.
    method ReportRest(end: ArgEnd, errorlast: int, parentlast: Parent, optarglast: Option<string>)
      requires end.Valid() && optind <= |argv| && (errorlast != 0 ==> optind < |argv|)
      modifies `optind, end, end.error, end.parent, end.argval
      ensures end.Valid() && optind == |argv|
      ensures end.reports == old(end.reports) +
                             Reports(Leftover(argv[old(optind)..], Tentative(errorlast, parentlast, optarglast)))
    {
      hide Leftover, Reports, Limited;
      ghost var left := Reports(Leftover(argv[optind..], Tentative(errorlast, parentlast, optarglast)));
      ghost var before := end.reports;
      if errorlast != 0 {
        NextReport(argv, optind, Tentative(errorlast, parentlast, optarglast));
        end.Register(parentlast, errorlast, optarglast);
        optind := optind + 1;
      }
      while optind < |argv|
        invariant optind <= |argv| && end.Valid()
        invariant before + left == end.reports + Reports(Leftover(argv[optind..], None))
      {
        NextReport(argv, optind, None);
        end.Register(OfEnd, ARG_ENOMATCH, Some(argv[optind]));
        optind := optind + 1;
      }
      NoReport(argv);
    }
  }

  lemma NextReport(argv: seq<string>, n: nat, last: Option<Record>)
    requires n < |argv|
    ensures Reports(Leftover(argv[n..], last)) ==
            [if last.Some? then last.value else Record(ARG_ENOMATCH, OfEnd, Some(argv[n]))]
            + Reports(Leftover(argv[n + 1..], None))
  {
    assert argv[n..][1..] == argv[n + 1..];
  }

  lemma NoReport(argv: seq<string>)
    ensures Reports(Leftover(argv[|argv|..], None)) == []
  {
  }

  // errorlast, parentlast and optarglast; 0 is no error.
  function Tentative(error: int, parent: Parent, argval: Option<string>): Option<Record> {
    if error != 0 then Some(Record(error, parent, argval)) else None
  }
}
