// getopt_long in its permuting mode: options may follow non-options, and the
// argument vector is rearranged as they are met.
module Getopt {
  import opened Wrappers
  import opened ArgBlocks

  datatype HasArg = NoArgument | RequiredArgument | OptionalArgument

  // flag tells whether a match stores val and returns 0, or returns val.
  datatype LongOption = LongOption(name: string, hasArg: HasArg, flag: bool, val: int)

  // The option letters, and the long names. A leading '+' or '-' would select
  // another mode, "W;" would add -W, and -1 is the value that ends a run.
  datatype Config = Config(options: string, longs: seq<LongOption>) {
    predicate Valid() {
      && (options != "" ==> options[0] != '+' && options[0] != '-')
      && ';' !in options
      && forall i :: 0 <= i < |longs| ==> longs[i].flag || longs[i].val != -1
    }

    function BadArg(): int {
      if options != "" && options[0] == ':' then ':' as int else '?' as int
    }
  }

  const BADCH: int := '?' as int

  // strchr.
  function IndexOf(s: string, c: char): (i: int)
    ensures -1 <= i < |s|
    ensures i >= 0 ==> s[i] == c && c !in s[..i]
    ensures i == -1 <==> c !in s
  {
    if s == "" then -1
    else if s[0] == c then 0
    else
      var i := IndexOf(s[1..], c);
      assert i >= 0 ==> s[..i + 1] == [s[0]] + s[1..][..i];
      if i == -1 then -1 else i + 1
  }

  // ---- Long names ----

  datatype Match = Found(index: nat) | Ambiguous | Unknown

  predicate Partial(longs: seq<LongOption>, key: string, i: int)
    requires 0 <= i < |longs|
  {
    key <= longs[i].name && |key| < |longs[i].name|
  }

  // The scan from entry i, given the partial match so far, -1 for none.
  function MatchFrom(longs: seq<LongOption>, key: string, i: nat, best: int): Match
    requires i <= |longs|
    decreases |longs| - i
  {
    if i == |longs| then (if best >= 0 then Found(best) else Unknown)
    else if longs[i].name == key then Found(i)
    else if !Partial(longs, key, i) then MatchFrom(longs, key, i + 1, best)
    else if best == -1 then MatchFrom(longs, key, i + 1, i)
    else Ambiguous
  }

  function LongMatch(longs: seq<LongOption>, key: string): Match {
    MatchFrom(longs, key, 0, -1)
  }

  // The loop of parse_long_options.
  method FindLong(longs: seq<LongOption>, key: string) returns (m: Match)
    ensures m == LongMatch(longs, key)
  {
    var match_ := -1;
    var i := 0;
    while i < |longs|
      invariant 0 <= i <= |longs| && -1 <= match_
      invariant MatchFrom(longs, key, i, match_) == LongMatch(longs, key)
    {
      if key <= longs[i].name {
        if |longs[i].name| == |key| {
          return Found(i);
        }
        if match_ == -1 {
          match_ := i;
        } else {
          return Ambiguous;
        }
      }
      i := i + 1;
    }
    m := if match_ >= 0 then Found(match_) else Unknown;
  }

  predicate ExactAt(longs: seq<LongOption>, key: string, e: int) {
    0 <= e < |longs| && longs[e].name == key && forall i :: 0 <= i < e ==> longs[i].name != key
  }

  predicate TwoPartialsBefore(longs: seq<LongOption>, key: string, e: int)
    requires 0 <= e <= |longs|
  {
    exists i, j :: 0 <= i < j < e && Partial(longs, key, i) && Partial(longs, key, j)
  }

  lemma {:induction false} MatchFromMeaning(longs: seq<LongOption>, key: string, i: nat, best: int)
    requires i <= |longs| && -1 <= best < i && (best >= 0 ==> Partial(longs, key, best))
    requires forall k :: 0 <= k < i ==> longs[k].name != key && (Partial(longs, key, k) ==> k == best)
    ensures match MatchFrom(longs, key, i, best)
            case Found(m) =>
              && m < |longs|
              && (if longs[m].name == key then ExactAt(longs, key, m) && !TwoPartialsBefore(longs, key, m)
                  else && Partial(longs, key, m)
                       && forall k :: 0 <= k < |longs| ==> longs[k].name != key && (Partial(longs, key, k) ==> k == m))
            case Ambiguous => exists e :: 0 <= e <= |longs| && TwoPartialsBefore(longs, key, e) &&
                                          forall k :: 0 <= k < e ==> longs[k].name != key
            case Unknown => forall k :: 0 <= k < |longs| ==> longs[k].name != key && !Partial(longs, key, k)
    decreases |longs| - i
  {
    if i < |longs| && longs[i].name != key {
      if !Partial(longs, key, i) {
        MatchFromMeaning(longs, key, i + 1, best);
      } else if best == -1 {
        MatchFromMeaning(longs, key, i + 1, i);
      } else {
        assert TwoPartialsBefore(longs, key, i + 1);
      }
    }
  }

  // A name given in full is found exactly when fewer than two longer names that
  // it begins come before it in the table; otherwise it is called ambiguous.
  lemma {:induction false} FullNameFound(longs: seq<LongOption>, key: string, e: int)
    requires ExactAt(longs, key, e)
    ensures LongMatch(longs, key) == Found(e) <==> !TwoPartialsBefore(longs, key, e)
    ensures LongMatch(longs, key) == Ambiguous <==> TwoPartialsBefore(longs, key, e)
  {
    MatchFromMeaning(longs, key, 0, -1);
    if LongMatch(longs, key).Ambiguous? {
      var n :| 0 <= n <= |longs| && TwoPartialsBefore(longs, key, n) &&
               forall k :: 0 <= k < n ==> longs[k].name != key;
      assert n <= e;
    }
  }

  // With "abc" and "abd" in front of it, the full name "ab" is not found.
  lemma {:induction false} FullNameMissed(v: int)
    ensures var longs := [LongOption("abc", NoArgument, false, v), LongOption("abd", NoArgument, false, v),
                          LongOption("ab", NoArgument, false, v)];
            LongMatch(longs, "ab") == Ambiguous
  {
    var longs := [LongOption("abc", NoArgument, false, v), LongOption("abd", NoArgument, false, v),
                  LongOption("ab", NoArgument, false, v)];
    assert longs[0].name[..2] == "ab" && longs[1].name[..2] == "ab";
    assert Partial(longs, "ab", 0) && Partial(longs, "ab", 1) && ExactAt(longs, "ab", 2);
    assert TwoPartialsBefore(longs, "ab", 2);
    FullNameFound(longs, "ab", 2);
  }

  // An abbreviation is found exactly when it begins one name only.
  lemma {:induction false} AbbreviationFound(longs: seq<LongOption>, key: string, m: int)
    requires forall k :: 0 <= k < |longs| ==> longs[k].name != key
    requires 0 <= m < |longs| && Partial(longs, key, m)
    ensures LongMatch(longs, key) == Found(m) <==>
            forall k :: 0 <= k < |longs| && Partial(longs, key, k) ==> k == m
  {
    MatchFromMeaning(longs, key, 0, -1);
  }

  // ---- One option ----

  // What a call reports: its value, optarg, optopt if it was set, and the value
  // stored through the flag of a long option if there was one.
  datatype Event = Event(code: int, optarg: Option<string>, optopt: Option<int>, stored: Option<int>)

  // The effect of one option on the scan: place is what is left of the current
  // argument, advance the number of arguments that are finished.
  datatype Outcome = Outcome(event: Event, place: string, advance: nat)

  // A long option after its two dashes; next is the following argument.
  function LongStep(c: Config, place: string, next: Option<string>): (o: Outcome)
    ensures o.place == "" && 1 <= o.advance <= (if next.Some? then 2 else 1)
    ensures c.Valid() ==> o.event.code != -1
  {
    var eq := IndexOf(place, '=');
    var key := if eq >= 0 then place[..eq] else place;
    match LongMatch(c.longs, key)
    case Ambiguous => Outcome(Event(BADCH, None, Some(0), None), "", 1)
    case Unknown => Outcome(Event(BADCH, None, Some(0), None), "", 1)
    case Found(m) =>
      MatchInRange(c.longs, key);
      LongFound(c, c.longs[m], place, eq, next)
  }

  // The same once the option is known; eq is the place of the '=', or -1.
  function LongFound(c: Config, opt: LongOption, place: string, eq: int, next: Option<string>): (o: Outcome)
    requires -1 <= eq < |place|
    ensures o.place == "" && 1 <= o.advance <= (if next.Some? then 2 else 1)
    ensures c.Valid() && opt in c.longs ==> o.event.code != -1
  {
    var code := if opt.flag then 0 else opt.val;
    var stored := if opt.flag then Some(opt.val) else None;
    var complaint := Some(if opt.flag then 0 else opt.val);
    if opt.hasArg.NoArgument? then
      if eq >= 0 then Outcome(Event(c.BadArg(), None, complaint, None), "", 1)
      else Outcome(Event(code, None, None, stored), "", 1)
    else if eq >= 0 then Outcome(Event(code, Some(place[eq + 1..]), None, stored), "", 1)
    else if opt.hasArg.OptionalArgument? then Outcome(Event(code, None, None, stored), "", 1)
    else if next.None? then Outcome(Event(c.BadArg(), None, complaint, None), "", 1)
    else Outcome(Event(code, next, None, stored), "", 2)
  }

  lemma MatchInRange(longs: seq<LongOption>, key: string)
    ensures LongMatch(longs, key).Found? ==> LongMatch(longs, key).index < |longs|
  {
    MatchFromMeaning(longs, key, 0, -1);
  }

  // The letter at the head of place.
  function ShortStep(c: Config, place: string, next: Option<string>): (o: Outcome)
    requires place != ""
    ensures o.advance <= (if next.Some? then 2 else 1) && o.event.code != -1
    ensures if o.advance == 0 then o.place != "" && |o.place| < |place| else o.place == ""
  {
    var letter, rest := place[0], place[1..];
    var oli := IndexOf(c.options, letter);
    var step := if rest == "" then 1 else 0;
    if letter == ':' || (letter == '-' && rest != "") || oli == -1 then
      Outcome(Event(BADCH, None, Some(letter as int), None), rest, step)
    else if !(oli + 1 < |c.options| && c.options[oli + 1] == ':') then
      Outcome(Event(letter as int, None, None, None), rest, step)
    else if rest != "" then Outcome(Event(letter as int, Some(rest), None, None), "", 1)
    else if oli + 2 < |c.options| && c.options[oli + 2] == ':' then
      Outcome(Event(letter as int, None, None, None), "", 1)
    else if next.None? then Outcome(Event(c.BadArg(), None, Some(letter as int), None), "", 1)
    else Outcome(Event(letter as int, next, None, None), "", 2)
  }

  // place is the whole argument only for a lone "-" that is an option letter.
  function Step(c: Config, place: string, whole: bool, next: Option<string>): Outcome
    requires place != ""
  {
    if place[0] == '-' && !whole then LongStep(c, place[1..], next) else ShortStep(c, place, next)
  }

  lemma StepReports(c: Config, place: string, whole: bool, next: Option<string>)
    requires place != "" && c.Valid()
    ensures Step(c, place, whole, next).event.code != -1
  {
  }

  lemma StepAdvances(c: Config, place: string, whole: bool, next: Option<string>)
    requires place != ""
    ensures var o := Step(c, place, whole, next);
            (o.place != "" <==> o.advance == 0) && (o.advance == 0 ==> |o.place| < |place|)
  {
    hide LongStep, ShortStep;
  }

  // ---- A whole run, without permutation ----

  predicate IsNonOption(c: Config, arg: string) {
    arg == "" || arg[0] != '-' || (|arg| == 1 && '-' !in c.options)
  }

  // What the caller hears, the arguments taken as options with their values,
  // those passed over, and those behind "--", each in their original order.
  datatype Scanned = Scanned(events: seq<Event>, opts: seq<string>, nonopts: seq<string>, rest: seq<string>)

  function NextArg(args: seq<string>, i: nat): Option<string> {
    if i + 1 < |args| then Some(args[i + 1]) else None
  }

  function Scan(c: Config, args: seq<string>, i: nat, place: string): Scanned
    requires i <= |args| && (place != "" ==> i < |args|)
    decreases |args| - i, if place != "" then |place| else if i < |args| then |args[i]| + 1 else 0
  {
    if place != "" then
      var o := Step(c, place, place == args[i], NextArg(args, i));
      After(o, args, i, Scan(c, args, i + o.advance, o.place))
    else if i == |args| then Scanned([], [], [], [])
    else if IsNonOption(c, args[i]) then
      var r := Scan(c, args, i + 1, "");
      r.(nonopts := [args[i]] + r.nonopts)
    else if args[i] == "--" then Scanned([], [args[i]], [], args[i + 1..])
    else
      Scan(c, args, i, Entry(args[i]))
  }

  lemma ScanStep(c: Config, args: seq<string>, i: nat, place: string)
    requires i < |args| && place != ""
    ensures var o := Step(c, place, place == args[i], NextArg(args, i));
            && i + o.advance <= |args| && (o.place != "" <==> o.advance == 0) && (o.advance == 0 ==> |o.place| < |place|)
            && Scan(c, args, i, place) == After(o, args, i, Scan(c, args, i + o.advance, o.place))
  {
    hide LongStep, ShortStep;
  }

  lemma ScanArgument(c: Config, args: seq<string>, i: nat)
    requires i <= |args|
    ensures i == |args| ==> Scan(c, args, i, "") == Scanned([], [], [], [])
    ensures i < |args| && IsNonOption(c, args[i]) ==>
              var r := Scan(c, args, i + 1, ""); Scan(c, args, i, "") == r.(nonopts := [args[i]] + r.nonopts)
    ensures i < |args| && !IsNonOption(c, args[i]) && args[i] == "--" ==>
              Scan(c, args, i, "") == Scanned([], [args[i]], [], args[i + 1..])
    ensures i < |args| && !IsNonOption(c, args[i]) && args[i] != "--" ==>
              Scan(c, args, i, "") == Scan(c, args, i, Entry(args[i]))
  {
    hide Step;
  }

  // Where scanning of an option argument begins: behind its first dash.
  function Entry(arg: string): (place: string)
    requires arg != ""
    ensures place != ""
  {
    if |arg| > 1 then arg[1..] else arg
  }

  function After(o: Outcome, args: seq<string>, i: nat, r: Scanned): Scanned
    requires i + o.advance <= |args|
  {
    r.(events := [o.event] + r.events, opts := args[i..i + o.advance] + r.opts)
  }

  // ---- What a run does to the argument vector ----

  // The entries of s at the places where labels is b, in order.
  function Keep<T>(s: seq<T>, labels: seq<bool>, b: bool): seq<T>
    requires |s| == |labels|
  {
    if s == [] then [] else (if labels[0] == b then [s[0]] else []) + Keep(s[1..], labels[1..], b)
  }

  function Trues(n: nat): (labels: seq<bool>)
    ensures |labels| == n
  {
    if n == 0 then [] else [true] + Trues(n - 1)
  }

  lemma {:induction false} KeepRun<T>(a: seq<T>, b: seq<T>, labels: seq<bool>)
    requires |labels| == |b|
    ensures Keep(a + b, Trues(|a|) + labels, true) == a + Keep(b, labels, true)
    ensures Keep(a + b, Trues(|a|) + labels, false) == Keep(b, labels, false)
    decreases |a|
  {
    if a == [] {
      assert a + b == b && Trues(0) + labels == labels;
    } else {
      KeepRun(a[1..], b, labels);
      assert (a + b)[1..] == a[1..] + b;
      assert (Trues(|a|) + labels)[1..] == Trues(|a| - 1) + labels;
      assert a == [a[0]] + a[1..];
    }
  }

  ghost predicate Partitions(args: seq<string>, i: nat, r: Scanned, labels: seq<bool>) {
    && i + |labels| <= |args|
    && r.opts == Keep(args[i..i + |labels|], labels, true)
    && r.nonopts == Keep(args[i..i + |labels|], labels, false)
    && r.rest == args[i + |labels|..]
  }

  lemma PartitionsAfter(o: Outcome, args: seq<string>, i: nat, r: Scanned, tail: seq<bool>)
    requires i + o.advance <= |args| && Partitions(args, i + o.advance, r, tail)
    ensures Partitions(args, i, After(o, args, i, r), Trues(o.advance) + tail)
  {
    var j := i + o.advance;
    KeepRun(args[i..j], args[j..j + |tail|], tail);
    assert args[i..j + |tail|] == args[i..j] + args[j..j + |tail|];
  }

  lemma PartitionsSkip(args: seq<string>, i: nat, r: Scanned, tail: seq<bool>)
    requires i < |args| && Partitions(args, i + 1, r, tail)
    ensures Partitions(args, i, r.(nonopts := [args[i]] + r.nonopts), [false] + tail)
  {
    var s := args[i..i + 1 + |tail|];
    assert s[1..] == args[i + 1..i + 1 + |tail|];
    assert ([false] + tail)[1..] == tail;
  }

  lemma PartitionsEnd(args: seq<string>, i: nat)
    requires i < |args|
    ensures Partitions(args, i, Scanned([], [args[i]], [], args[i + 1..]), [true])
  {
    assert args[i..i + 1] == [args[i]];
  }

  lemma PartitionsNone(args: seq<string>)
    ensures Partitions(args, |args|, Scanned([], [], [], []), [])
  {
  }

  // Options and non-options split the arguments in front of the rest, each
  // side keeping its order.
  lemma {:induction false} ScanPartitions(c: Config, args: seq<string>, i: nat, place: string) returns (labels: seq<bool>)
    requires i <= |args| && (place != "" ==> i < |args|)
    ensures Partitions(args, i, Scan(c, args, i, place), labels)
    decreases |args| - i, if place != "" then |place| else if i < |args| then |args[i]| + 1 else 0
  {
    hide Scan, Step, Keep, Trues, Partitions;
    if place == "" { ScanArgument(c, args, i); } else { ScanStep(c, args, i, place); }
    if place != "" {
      var o := Step(c, place, place == args[i], NextArg(args, i));
      var tail := ScanPartitions(c, args, i + o.advance, o.place);
      PartitionsAfter(o, args, i, Scan(c, args, i + o.advance, o.place), tail);
      labels := Trues(o.advance) + tail;
    } else if i == |args| {
      labels := [];
      PartitionsNone(args);
    } else if IsNonOption(c, args[i]) {
      var tail := ScanPartitions(c, args, i + 1, "");
      PartitionsSkip(args, i, Scan(c, args, i + 1, ""), tail);
      labels := [false] + tail;
    } else if args[i] == "--" {
      PartitionsEnd(args, i);
      labels := [true];
    } else {
      labels := ScanPartitions(c, args, i, Entry(args[i]));
    }
  }

  // Every argument passed over is a non-option, and arguments are left
  // unscanned only behind a "--".
  lemma {:induction false} ScanStopsAtDashes(c: Config, args: seq<string>, i: nat, place: string)
    requires i <= |args| && (place != "" ==> i < |args|)
    ensures var r := Scan(c, args, i, place);
            && (forall a :: a in r.nonopts ==> IsNonOption(c, a))
            && (r.rest == [] || (r.opts != [] && r.opts[|r.opts| - 1] == "--"))
    decreases |args| - i, if place != "" then |place| else if i < |args| then |args[i]| + 1 else 0
  {
    hide Scan, Step;
    if place == "" { ScanArgument(c, args, i); } else { ScanStep(c, args, i, place); }
    if place != "" {
      var o := Step(c, place, place == args[i], NextArg(args, i));
      ScanStopsAtDashes(c, args, i + o.advance, o.place);
    } else if i < |args| && IsNonOption(c, args[i]) {
      ScanStopsAtDashes(c, args, i + 1, "");
    } else if i < |args| && args[i] != "--" {
      ScanStopsAtDashes(c, args, i, Entry(args[i]));
    }
  }

  lemma {:induction false} KeepMultiset<T>(s: seq<T>, labels: seq<bool>)
    requires |s| == |labels|
    ensures multiset(Keep(s, labels, true)) + multiset(Keep(s, labels, false)) == multiset(s)
  {
    if s != [] {
      KeepMultiset(s[1..], labels[1..]);
      assert s == [s[0]] + s[1..];
    }
  }

  // Nothing is lost, added or duplicated between here and the end of a run.
  lemma {:induction false} RestPermutes(c: Config, args: seq<string>, i: nat, place: string)
    requires i <= |args| && (place != "" ==> i < |args|)
    ensures var r := Scan(c, args, i, place);
            multiset(r.opts) + multiset(r.nonopts) + multiset(r.rest) == multiset(args[i..])
  {
    hide Scan, Keep;
    var labels := ScanPartitions(c, args, i, place);
    KeepMultiset(args[i..i + |labels|], labels);
    CutMultiset(args, i, i + |labels|);
  }

  lemma CutMultiset<T>(s: seq<T>, i: nat, n: nat)
    requires i <= n <= |s|
    ensures multiset(s[i..n]) + multiset(s[n..]) == multiset(s[i..])
  {
    assert s[i..n] + s[n..] == s[i..];
  }

  // The final arrangement is a permutation of the arguments.
  lemma {:induction false} ScanPermutes(c: Config, args: seq<string>)
    requires |args| >= 1
    ensures var r := Scan(c, args, 1, "");
            multiset([args[0]] + (r.opts + r.nonopts) + r.rest) == multiset(args)
  {
    hide Scan;
    RestPermutes(c, args, 1, "");
    assert [args[0]] + args[1..] == args;
  }

  // ---- The scanner ----

  // How the vector lies up to optind: consumed arguments, then a block of
  // non-options, then consumed ones that have not been moved yet. start and end
  // are nonopt_start and nonopt_end; inside tells that an argument is half read.
  ghost predicate Laid(done: seq<string>, start: int, end: int, optind: int, inside: bool,
                       opts: seq<string>, nonopts: seq<string>)
  {
    && 1 <= optind <= |done|
    && if start == -1 then end == -1 && nonopts == [] && done[1..optind] == opts
       else if end == -1 then
         1 <= start < optind && done[1..start] == opts && done[start..optind] == nonopts
       else
         && 1 <= start < end <= optind && (end < optind || inside)
         && done[1..start] + done[end..optind] == opts && done[start..end] == nonopts
  }

  // Moving the block of non-options behind the options.
  lemma {:induction false} LaidAfterExchange(done: seq<string>, start: int, end: int, optind: int,
                                             opts: seq<string>, nonopts: seq<string>)
    requires Laid(done, start, end, optind, false, opts, nonopts) && end != -1
    ensures start != -1
    ensures var now := Exchange(done, start, end, optind);
            && Laid(now, optind - (end - start), -1, optind, false, opts, nonopts)
            && now[0] == done[0] && now[optind..] == done[optind..]
  {
    var now := Exchange(done, start, end, optind);
    var mid := optind - (end - start);
    assert now[1..mid] == done[1..start] + done[end..optind];
    assert now[mid..optind] == done[start..end];
  }

  // Once no consumed argument follows the non-options, everything is in place.
  lemma LaidOut(done: seq<string>, start: int, optind: int, opts: seq<string>, nonopts: seq<string>)
    requires Laid(done, start, -1, optind, false, opts, nonopts)
    ensures done == [done[0]] + opts + nonopts + done[optind..]
    ensures (if start == -1 then optind else start) == 1 + |opts|
  {
    assert done == [done[0]] + done[1..optind] + done[optind..];
    if start != -1 { assert done[1..optind] == done[1..start] + done[start..optind]; }
  }

  // One more non-option.
  lemma LaidSkip(done: seq<string>, start: int, optind: int, opts: seq<string>, nonopts: seq<string>)
    requires Laid(done, start, -1, optind, false, opts, nonopts) && optind < |done|
    ensures Laid(done, if start == -1 then optind else start, -1, optind + 1, false, opts, nonopts + [done[optind]])
  {
    if start == -1 {
      assert done[optind..optind + 1] == [done[optind]];
    } else {
      assert done[start..optind + 1] == done[start..optind] + [done[optind]];
    }
  }

  // An option argument is reached: it ends the block of non-options.
  lemma LaidReach(done: seq<string>, start: int, end: int, optind: int, opts: seq<string>, nonopts: seq<string>)
    requires Laid(done, start, end, optind, false, opts, nonopts)
    ensures Laid(done, start, if start != -1 && end == -1 then optind else end, optind, true, opts, nonopts)
  {
    if start != -1 && end == -1 { assert done[1..start] + done[optind..optind] == opts; }
  }

  // n more consumed arguments.
  lemma LaidConsume(done: seq<string>, start: int, end: int, optind: int, n: nat, inside: bool,
                    opts: seq<string>, nonopts: seq<string>)
    requires Laid(done, start, end, optind, true, opts, nonopts) && (start != -1 ==> end != -1)
    requires optind + n <= |done| && (n > 0 || inside)
    ensures Laid(done, start, end, optind + n, inside, opts + done[optind..optind + n], nonopts)
  {
    if start == -1 {
      assert done[1..optind + n] == done[1..optind] + done[optind..optind + n];
    } else {
      assert done[end..optind + n] == done[end..optind] + done[optind..optind + n];
    }
  }

  // What the rest of the run adds is what the whole run still lacks.
  ghost predicate OnTrack(c: Config, args: seq<string>, i: int, place: string,
                          events: seq<Event>, opts: seq<string>, nonopts: seq<string>)
  {
    && 1 <= i <= |args| && (place != "" ==> i < |args|)
    && var r := Scan(c, args, i, place);
       Scan(c, args, 1, "") == Scanned(events + r.events, opts + r.opts, nonopts + r.nonopts, r.rest)
  }

  lemma OnTrackSkip(c: Config, args: seq<string>, i: int,
                    events: seq<Event>, opts: seq<string>, nonopts: seq<string>)
    requires OnTrack(c, args, i, "", events, opts, nonopts) && i < |args| && IsNonOption(c, args[i])
    ensures OnTrack(c, args, i + 1, "", events, opts, nonopts + [args[i]])
  {
    var r := Scan(c, args, i + 1, "");
    assert nonopts + ([args[i]] + r.nonopts) == (nonopts + [args[i]]) + r.nonopts;
  }

  lemma OnTrackStep(c: Config, args: seq<string>, i: int, place: string,
                    events: seq<Event>, opts: seq<string>, nonopts: seq<string>)
    requires OnTrack(c, args, i, place, events, opts, nonopts) && place != ""
    ensures var o := Step(c, place, place == args[i], NextArg(args, i));
            && i + o.advance <= |args|
            && OnTrack(c, args, i + o.advance, o.place, events + [o.event], opts + args[i..i + o.advance], nonopts)
  {
    hide Scan, Step;
    ScanStep(c, args, i, place);
    var o := Step(c, place, place == args[i], NextArg(args, i));
    var r := Scan(c, args, i + o.advance, o.place);
    assert events + ([o.event] + r.events) == (events + [o.event]) + r.events;
    assert opts + (args[i..i + o.advance] + r.opts) == (opts + args[i..i + o.advance]) + r.opts;
  }

  // The promised end: the consumed options with their values, the non-options,
  // and what is behind "--", with optind at the first that is not an option.
  ghost predicate Finished(c: Config, args: seq<string>, done: seq<string>, optind: int, events: seq<Event>)
    requires |args| >= 1
  {
    var r := Scan(c, args, 1, "");
    done == [args[0]] + r.opts + r.nonopts + r.rest && optind == 1 + |r.opts| && events == r.events
  }

  // The state of a run: done is the vector now, args the vector at the start.
  ghost predicate Track(c: Config, args: seq<string>, done: seq<string>, start: int, end: int, optind: int,
                        place: string, opts: seq<string>, nonopts: seq<string>, events: seq<Event>)
  {
    && c.Valid() && |args| == |done| && |args| >= 1
    && Laid(done, start, end, optind, place != "", opts, nonopts)
    && done[0] == args[0] && done[optind..] == args[optind..]
    && OnTrack(c, args, optind, place, events, opts, nonopts)
    && (place != "" && start != -1 ==> end != -1)
  }

  lemma SameSuffix(done: seq<string>, args: seq<string>, i: int, n: nat)
    requires |args| == |done| && 0 <= i && i + n <= |args| && done[i..] == args[i..]
    ensures done[i + n..] == args[i + n..] && done[i..i + n] == args[i..i + n]
    ensures i < |args| ==> done[i] == args[i] && NextArg(done, i) == NextArg(args, i)
  {
    assert done[i + n..] == done[i..][n..] && args[i + n..] == args[i..][n..];
    assert done[i..i + n] == done[i..][..n] && args[i..i + n] == args[i..][..n];
    if i < |args| { assert done[i] == done[i..][0] && args[i] == args[i..][0]; }
    if i + 1 < |args| { assert done[i + 1] == done[i..][1] && args[i + 1] == args[i..][1]; }
  }

  // The vector and the block's start once pending options have been moved.
  ghost function Moved(done: seq<string>, start: int, end: int, optind: int): seq<string> {
    if 0 <= start <= end <= optind <= |done| then Exchange(done, start, end, optind) else done
  }

  ghost function StartAfter(start: int, end: int, optind: int): int {
    if start == -1 then optind else if end != -1 then optind - (end - start) else start
  }

  lemma {:induction false} TrackSkip(c: Config, args: seq<string>, done: seq<string>, start: int, end: int, optind: int,
                                     opts: seq<string>, nonopts: seq<string>, events: seq<Event>)
    requires Track(c, args, done, start, end, optind, "", opts, nonopts, events)
    requires optind < |done| && IsNonOption(c, done[optind])
    ensures Track(c, args, Moved(done, start, end, optind), StartAfter(start, end, optind), -1, optind + 1, "",
                  opts, nonopts + [done[optind]], events)
  {
    SameSuffix(done, args, optind, 1);
    OnTrackSkip(c, args, optind, events, opts, nonopts);
    if end != -1 {
      LaidAfterExchange(done, start, end, optind, opts, nonopts);
      var now := Exchange(done, start, end, optind);
      assert now[optind] == now[optind..][0] == done[optind..][0];
      SameSuffix(now, args, optind, 1);
      LaidSkip(now, optind - (end - start), optind, opts, nonopts);
    } else {
      LaidSkip(done, start, optind, opts, nonopts);
    }
  }

  lemma {:induction false} TrackReach(c: Config, args: seq<string>, done: seq<string>, start: int, end: int, optind: int,
                                      opts: seq<string>, nonopts: seq<string>, events: seq<Event>)
    requires Track(c, args, done, start, end, optind, "", opts, nonopts, events)
    requires optind < |done| && !IsNonOption(c, done[optind]) && done[optind] != "--"
    ensures Track(c, args, done, start, if start != -1 && end == -1 then optind else end, optind,
                  Entry(done[optind]), opts, nonopts, events)
  {
    SameSuffix(done, args, optind, 1);
    LaidReach(done, start, end, optind, opts, nonopts);
  }

  lemma {:induction false} TrackTake(c: Config, args: seq<string>, done: seq<string>, start: int, end: int, optind: int,
                                     place: string, opts: seq<string>, nonopts: seq<string>, events: seq<Event>)
    requires Track(c, args, done, start, end, optind, place, opts, nonopts, events) && place != ""
    ensures var o := Step(c, place, place == done[optind], NextArg(done, optind));
            && optind + o.advance <= |done|
            && Track(c, args, done, start, end, optind + o.advance, o.place,
                     opts + done[optind..optind + o.advance], nonopts, events + [o.event])
  {
    hide Scan, LongStep, ShortStep;
    SameSuffix(done, args, optind, 1);
    var o := Step(c, place, place == done[optind], NextArg(done, optind));
    OnTrackStep(c, args, optind, place, events, opts, nonopts);
    SameSuffix(done, args, optind, o.advance);
    LaidConsume(done, start, end, optind, o.advance, o.place != "", opts, nonopts);
  }

  lemma LaidMultiset(done: seq<string>, start: int, end: int, optind: int, inside: bool,
                     opts: seq<string>, nonopts: seq<string>)
    requires Laid(done, start, end, optind, inside, opts, nonopts)
    ensures multiset(done[1..optind]) == multiset(opts) + multiset(nonopts)
  {
    if start != -1 && end == -1 {
      BagOfSlices(done, 1, start, optind);
    } else if start != -1 {
      BagOfSlices(done, 1, start, optind);
      BagOfSlices(done, start, end, optind);
      assert opts == done[1..start] + done[end..optind];
    }
  }

  lemma BagOfSlices<T>(s: seq<T>, a: nat, b: nat, c: nat)
    requires a <= b <= c <= |s|
    ensures multiset(s[a..c]) == multiset(s[a..b]) + multiset(s[b..c])
  {
    assert s[a..c] == s[a..b] + s[b..c];
  }

  // At every point of a run the vector is a permutation of the one at the start.
  lemma {:induction false} TrackPermutes(c: Config, args: seq<string>, done: seq<string>, start: int, end: int, optind: int,
                                         place: string, opts: seq<string>, nonopts: seq<string>, events: seq<Event>)
    requires Track(c, args, done, start, end, optind, place, opts, nonopts, events)
    ensures multiset(done) == multiset(args)
  {
    hide Scan, Laid;
    LaidMultiset(done, start, end, optind, place != "", opts, nonopts);
    RestPermutes(c, args, optind, place);
    RestPermutes(c, args, 1, "");
    BagOfParts(done, optind);
    BagOfParts(args, 1);
  }

  lemma BagOfParts<T>(s: seq<T>, i: nat)
    requires 1 <= i <= |s|
    ensures multiset(s) == multiset{s[0]} + multiset(s[1..i]) + multiset(s[i..])
  {
    assert s == [s[0]] + s[1..i] + s[i..];
  }

  // At the end of a run the pending options are moved, and optind goes back to
  // the first non-option.
  ghost predicate Closing(args: seq<string>, c: Config, done: seq<string>, start: int, end: int, optind: int,
                          opts: seq<string>, nonopts: seq<string>, events: seq<Event>)
  {
    && |args| >= 1 && Laid(done, start, end, optind, false, opts, nonopts) && done[0] == args[0]
    && Scan(c, args, 1, "") == Scanned(events, opts, nonopts, done[optind..])
  }

  lemma {:induction false} ClosingFinishes(args: seq<string>, c: Config, done: seq<string>, start: int, end: int, optind: int,
                                           opts: seq<string>, nonopts: seq<string>, events: seq<Event>)
    requires Closing(args, c, done, start, end, optind, opts, nonopts, events)
    ensures Finished(c, args, Moved(done, start, end, optind), StartAfter(start, end, optind), events)
  {
    if end != -1 {
      LaidAfterExchange(done, start, end, optind, opts, nonopts);
      LaidOut(Moved(done, start, end, optind), optind - (end - start), optind, opts, nonopts);
    } else {
      LaidOut(done, start, optind, opts, nonopts);
    }
  }

  lemma {:induction false} TrackEnd(c: Config, args: seq<string>, done: seq<string>, start: int, end: int, optind: int,
                                    opts: seq<string>, nonopts: seq<string>, events: seq<Event>)
    requires Track(c, args, done, start, end, optind, "", opts, nonopts, events) && optind == |done|
    ensures Closing(args, c, done, start, end, optind, opts, nonopts, events)
  {
  }

  lemma {:induction false} TrackDashes(c: Config, args: seq<string>, done: seq<string>, start: int, end: int, optind: int,
                                       opts: seq<string>, nonopts: seq<string>, events: seq<Event>)
    requires Track(c, args, done, start, end, optind, "", opts, nonopts, events)
    requires optind < |done| && done[optind] == "--"
    ensures Closing(args, c, done, start, if start != -1 && end == -1 then optind else end, optind + 1,
                    opts + ["--"], nonopts, events)
  {
    SameSuffix(done, args, optind, 1);
    LaidReach(done, start, end, optind, opts, nonopts);
    LaidConsume(done, start, if start != -1 && end == -1 then optind else end, optind, 1, false, opts, nonopts);
    assert done[optind..optind + 1] == ["--"];
  }

  // What is unread of an option argument: less than all of it, or a lone "-" that
  // is an option letter.
  predicate Unread(c: Config, arg: string, place: string) {
    |place| < |arg| || (arg == "-" && place == "-" && '-' in c.options)
  }

  // What the caller of getopt_long can read after a call.
  datatype Heard = Heard(code: int, optarg: Option<string>, optopt: int, flagValue: int)

  // optopt and the stored value keep what the last event that set them gave.
  function OptoptAfter(es: seq<Event>, optopt: int): int {
    if es == [] then optopt
    else if es[|es| - 1].optopt.Some? then es[|es| - 1].optopt.value
    else OptoptAfter(es[..|es| - 1], optopt)
  }

  function FlagAfter(es: seq<Event>, flagValue: int): int {
    if es == [] then flagValue
    else if es[|es| - 1].stored.Some? then es[|es| - 1].stored.value
    else FlagAfter(es[..|es| - 1], flagValue)
  }

  function Told(es: seq<Event>, optopt: int, flagValue: int): seq<Heard> {
    if es == [] then []
    else
      Told(es[..|es| - 1], optopt, flagValue) +
      [Heard(es[|es| - 1].code, es[|es| - 1].optarg, OptoptAfter(es, optopt), FlagAfter(es, flagValue))]
  }

  lemma ToldNext(es: seq<Event>, e: Event, optopt: int, flagValue: int)
    ensures OptoptAfter(es + [e], optopt) == if e.optopt.Some? then e.optopt.value else OptoptAfter(es, optopt)
    ensures FlagAfter(es + [e], flagValue) == if e.stored.Some? then e.stored.value else FlagAfter(es, flagValue)
    ensures Told(es + [e], optopt, flagValue) ==
            Told(es, optopt, flagValue) +
            [Heard(e.code, e.optarg, OptoptAfter(es + [e], optopt), FlagAfter(es + [e], flagValue))]
  {
    assert (es + [e])[..|es|] == es;
  }

  // The file's static variables, and the argument vector. -1 stands for "unset"
  // in nonoptStart and nonoptEnd; place is the unread part of the current
  // argument, empty between arguments.
  class Scanner {
    const c: Config
    const argv: array<string>
    var optind: int
    var optreset: bool
    var place: string
    var nonoptStart: int
    var nonoptEnd: int
    var optarg: Option<string>
    var optopt: int
    var flagValue: int

    ghost const original: seq<string>
    ghost var opts: seq<string>     // consumed so far
    ghost var nonopts: seq<string>  // passed over so far
    ghost var events: seq<Event>    // reported so far

    constructor (c: Config, argv: array<string>)
      requires c.Valid() && argv.Length >= 1
      ensures Valid() && this.c == c && this.argv == argv && original == argv[..]
      ensures optind == 1 && events == []
    {
      this.c, this.argv := c, argv;
      // arg_parse_tagged sets optind to 0, which getopt turns into a reset.
      optind, optreset, place := 1, true, "";
      nonoptStart, nonoptEnd := -1, -1;
      optarg, optopt, flagValue := None, '?' as int, 0;
      original := argv[..];
      opts, nonopts, events := [], [], [];
    }

    ghost predicate Valid()
      reads this, argv
    {
      && Track(c, original, argv[..], nonoptStart, nonoptEnd, optind, place, opts, nonopts, events)
      && (optreset ==> nonoptStart == -1 && place == "")
      && (place != "" && optind < argv.Length ==> Unread(c, argv[optind], place))
    }

    // Whenever a call returns, argv is a permutation of what it was at first.
    lemma {:induction false} Permuted()
      requires Valid() || (|original| >= 1 && Finished(c, original, argv[..], optind, events))
      ensures multiset(argv[..]) == multiset(original)
    {
      hide Scan;
      if Valid() {
        TrackPermutes(c, original, argv[..], nonoptStart, nonoptEnd, optind, place, opts, nonopts, events);
      } else {
        var r := Scan(c, original, 1, "");
        ScanPermutes(c, original);
        assert argv[..] == [original[0]] + (r.opts + r.nonopts) + r.rest;
      }
    }

    lemma InBounds()
      requires Valid()
      ensures c.Valid() && |original| == argv.Length && 1 <= optind <= argv.Length
      ensures place != "" ==> optind < argv.Length
    {
    }

    // The outputs of a call carry what the event says.
    ghost predicate Reports(e: Event, r: int, oldOptopt: int, oldFlag: int)
      reads this
    {
      && r == e.code && optarg == e.optarg
      && optopt == (if e.optopt.Some? then e.optopt.value else oldOptopt)
      && flagValue == (if e.stored.Some? then e.stored.value else oldFlag)
    }

    // parse_long_options, on what follows the two dashes.
    method ParseLongOptions() returns (r: int)
      requires 0 <= optind < argv.Length && optarg == None
      modifies `optind, `optarg, `optopt, `flagValue
      ensures var o := LongStep(c, place, NextArg(argv[..], old(optind)));
              optind == old(optind) + o.advance && Reports(o.event, r, old(optopt), old(flagValue))
    {
      hide MatchFrom, IndexOf, LongMatch, LongFound;
      var key := place;
      optind := optind + 1;
      var hasEqual := IndexOf(place, '=');
      if hasEqual != -1 {
        key := place[..hasEqual];
      }
      var m := FindLong(c.longs, key);
      if m.Ambiguous? {
        optopt := 0;
        return BADCH;
      }
      if m.Unknown? {
        optopt := 0;
        return BADCH;
      }
      MatchInRange(c.longs, key);
      r := TakeLong(c.longs[m.index], hasEqual);
    }

    // parse_long_options, once the option is known.
    method TakeLong(opt: LongOption, hasEqual: int) returns (r: int)
      requires 1 <= optind <= argv.Length && optarg == None && -1 <= hasEqual < |place|
      modifies `optind, `optarg, `optopt, `flagValue
      ensures var o := LongFound(c, opt, place, hasEqual, NextArg(argv[..], old(optind) - 1));
              optind == old(optind) - 1 + o.advance && Reports(o.event, r, old(optopt), old(flagValue))
    {
      if opt.hasArg == NoArgument && hasEqual != -1 {
        optopt := if opt.flag then 0 else opt.val;
        return c.BadArg();
      }
      if opt.hasArg == RequiredArgument || opt.hasArg == OptionalArgument {
        if hasEqual != -1 {
          optarg := Some(place[hasEqual + 1..]);
        } else if opt.hasArg == RequiredArgument {
          // The entry behind the last argument is NULL.
          optarg := if optind < argv.Length then Some(argv[optind]) else None;
          optind := optind + 1;
        }
      }
      if opt.hasArg == RequiredArgument && optarg == None {
        optopt := if opt.flag then 0 else opt.val;
        optind := optind - 1;
        return c.BadArg();
      }
      if opt.flag {
        flagValue := opt.val;
        return 0;
      }
      return opt.val;
    }

    // getopt_internal from the test for a long option to the end.
    method TakeOption() returns (r: int)
      requires place != "" && 0 <= optind < argv.Length && optarg == None && Unread(c, argv[optind], place)
      modifies `optind, `optarg, `optopt, `flagValue, `place
      ensures var o := Step(c, old(place), old(place) == argv[old(optind)], NextArg(argv[..], old(optind)));
              && optind == old(optind) + o.advance && place == o.place
              && Reports(o.event, r, old(optopt), old(flagValue))
    {
      if place != argv[optind] && place[0] == '-' {
        place := place[1..];
        r := ParseLongOptions();
        place := "";
        return;
      }
      var optchar := place[0];
      place := place[1..];
      var oli := IndexOf(c.options, optchar);
      if optchar == ':' || (optchar == '-' && place != "") || oli == -1 {
        if place == "" {
          optind := optind + 1;
        }
        optopt := optchar as int;
        return BADCH;
      }
      if !(oli + 1 < |c.options| && c.options[oli + 1] == ':') {
        if place == "" {
          optind := optind + 1;
        }
      } else {
        optarg := None;
        if place != "" {
          optarg := Some(place);
        } else if !(oli + 2 < |c.options| && c.options[oli + 2] == ':') {
          optind := optind + 1;
          if optind >= argv.Length {
            place := "";
            optopt := optchar as int;
            return c.BadArg();
          }
          optarg := Some(argv[optind]);
        }
        place := "";
        optind := optind + 1;
      }
      return optchar as int;
    }

    // End of a run: move the non-options behind the options, if some are not.
    method Settle()
      requires Closing(original, c, argv[..], nonoptStart, nonoptEnd, optind, opts, nonopts, events)
      modifies argv, `optind, `nonoptStart, `nonoptEnd
      ensures Finished(c, original, argv[..], optind, events)
    {
      ClosingFinishes(original, c, argv[..], nonoptStart, nonoptEnd, optind, opts, nonopts, events);
      if nonoptEnd != -1 {
        PermuteArgs(nonoptStart, nonoptEnd, optind, argv);
        optind := optind - (nonoptEnd - nonoptStart);
      } else if nonoptStart != -1 {
        optind := nonoptStart;
      }
      nonoptStart, nonoptEnd := -1, -1;
    }

    // A non-option: it joins the block of non-options, which first moves behind
    // the options found since it was formed.
    method Skip()
      requires Valid() && place == "" && !optreset && optind < argv.Length && IsNonOption(c, argv[..][optind])
      modifies argv, `optind, `nonoptStart, `nonoptEnd, `nonopts
      ensures Valid() && optind == old(optind) + 1
    {
      hide Scan, OnTrack, Exchange, IsNonOption;
      TrackSkip(c, original, argv[..], nonoptStart, nonoptEnd, optind, opts, nonopts, events);
      nonopts := nonopts + [argv[..][optind]];
      if nonoptStart == -1 {
        nonoptStart := optind;
      } else if nonoptEnd != -1 {
        PermuteArgs(nonoptStart, nonoptEnd, optind, argv);
        nonoptStart := optind - (nonoptEnd - nonoptStart);
        nonoptEnd := -1;
      }
      optind := optind + 1;
    }

    // getopt_internal from `start` to the test for "--": skips non-options up to
    // the next option argument. False at the end of the options.
    method FindOption() returns (more: bool)
      requires Valid() && (optreset || place == "")
      modifies this, argv
      ensures events == old(events) && optarg == old(optarg) && optopt == old(optopt) && flagValue == old(flagValue)
      ensures more ==> Valid() && place != "" && !optreset && optind >= old(optind)
      ensures !more ==> Finished(c, original, argv[..], optind, events)
    {
      hide Scan, Laid, IsNonOption, Finished, Closing;
      optreset := false;
      while optind < argv.Length && IsNonOption(c, argv[optind])
        invariant Valid() && place == "" && !optreset && events == old(events) && optind >= old(optind)
        invariant optarg == old(optarg) && optopt == old(optopt) && flagValue == old(flagValue)
        decreases argv.Length - optind
      {
        Skip();
      }
      if optind >= argv.Length {
        TrackEnd(c, original, argv[..], nonoptStart, nonoptEnd, optind, opts, nonopts, events);
        Settle();
        return false;
      }
      more := Reach();
    }

    // An argument that begins an option, or "--".
    method Reach() returns (more: bool)
      requires Valid() && place == "" && !optreset && optind < argv.Length && !IsNonOption(c, argv[optind])
      modifies argv, `optind, `nonoptStart, `nonoptEnd, `place, `opts
      ensures more ==> Valid() && place != "" && optind == old(optind)
      ensures !more ==> Finished(c, original, argv[..], optind, events)
    {
      hide Track, Scan, Closing, Finished;
      InBounds();
      if argv[optind] == "--" {
        TrackDashes(c, original, argv[..], nonoptStart, nonoptEnd, optind, opts, nonopts, events);
      } else {
        TrackReach(c, original, argv[..], nonoptStart, nonoptEnd, optind, opts, nonopts, events);
      }
      place := argv[optind];
      if nonoptStart != -1 && nonoptEnd == -1 {
        nonoptEnd := optind;
      }
      if |place| > 1 {
        place := place[1..];
        if place == "-" {
          optind := optind + 1;
          place := "";
          opts := opts + ["--"];
          Settle();
          return false;
        }
      }
      return true;
    }

    // getopt_long. A call that does not end the run moves on in the vector or in
    // the current argument.
    method Getopt() returns (r: int)
      requires Valid()
      modifies this, argv
      ensures multiset(argv[..]) == multiset(original)
      ensures r != -1 ==>
                || optind > old(optind)
                || (optind == old(optind) && place != "" && (old(place) == "" || |place| < |old(place)|))
      ensures if r == -1 then Finished(c, original, argv[..], optind, events) && events == old(events)
              else Valid() && exists e :: events == old(events) + [e] && Reports(e, r, old(optopt), old(flagValue))
    {
      hide Scan, OnTrack, Finished;
      optarg := None;
      if optreset {
        nonoptStart, nonoptEnd := -1, -1;
      }
      if optreset || place == "" {
        var more := FindOption();
        if !more {
          Permuted();
          return -1;
        }
      }
      r := Take();
      Permuted();
    }

    // One option of the current argument.
    method Take() returns (r: int)
      requires Valid() && place != "" && optarg == None
      modifies `optind, `optarg, `optopt, `flagValue, `place, `opts, `events
      ensures Valid() && r != -1
      ensures optind > old(optind) || (optind == old(optind) && place != "" && |place| < |old(place)|)
      ensures exists e :: events == old(events) + [e] && Reports(e, r, old(optopt), old(flagValue))
    {
      hide Track, Scan, LongStep, ShortStep, Step;
      InBounds();
      ghost var i := optind;
      ghost var o := Step(c, place, place == argv[..][i], NextArg(argv[..], i));
      TrackTake(c, original, argv[..], nonoptStart, nonoptEnd, i, place, opts, nonopts, events);
      StepReports(c, place, place == argv[..][i], NextArg(argv[..], i));
      StepAdvances(c, place, place == argv[..][i], NextArg(argv[..], i));
      opts := opts + argv[..][i..i + o.advance];
      events := events + [o.event];
      r := TakeOption();
      assert events == old(events) + [o.event] && Reports(o.event, r, old(optopt), old(flagValue));
    }

    // The loop of arg_parse_tagged around getopt_long: what it is told, and how
    // the arguments lie for arg_parse_untagged afterwards.
    method Run() returns (heard: seq<Heard>)
      requires Valid() && events == []
      modifies this, argv
      ensures Finished(c, original, argv[..], optind, events)
      ensures heard == Told(Scan(c, original, 1, "").events, old(optopt), old(flagValue))
    {
      ghost var optopt0, flag0 := optopt, flagValue;
      heard := [];
      while true
        invariant Valid() && heard == Told(events, optopt0, flag0)
        invariant optopt == OptoptAfter(events, optopt0) && flagValue == FlagAfter(events, flag0)
        decreases |Scan(c, original, 1, "").events| - |events|
      {
        ghost var events0, optopt1, flag1 := events, optopt, flagValue;
        var r := Getopt();
        if r == -1 { break; }
        ghost var e :| events == events0 + [e] && Reports(e, r, optopt1, flag1);
        ToldNext(events0, e, optopt0, flag0);
        heard := heard + [Heard(r, optarg, optopt, flagValue)];
      }
    }
  }
}
