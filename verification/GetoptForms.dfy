// What each form of option reports, written out as it stands on a command line.
module GetoptForms {
  import opened Wrappers
  import opened Getopt

  // The n arguments from i on go to the options with event e, and scanning goes
  // on behind them.
  ghost predicate Reported(c: Config, args: seq<string>, i: nat, place: string, n: nat, e: Event) {
    && i < |args| && i + n <= |args|
    && var r := Scan(c, args, i + n, "");
       Scan(c, args, i, place) == Scanned([e] + r.events, args[i..i + n] + r.opts, r.nonopts, r.rest)
  }

  // ---- Non-options and "--" ----

  // Empty arguments and those without a leading dash are passed over, and so is a
  // lone "-", unless it is an option letter.
  lemma {:induction false} NonOptionPassed(c: Config, args: seq<string>, i: nat)
    requires i < |args|
    requires args[i] == "" || args[i][0] != '-' || (args[i] == "-" && '-' !in c.options)
    ensures var r := Scan(c, args, i + 1, "");
            Scan(c, args, i, "") == Scanned(r.events, r.opts, [args[i]] + r.nonopts, r.rest)
  {
    hide Scan;
    ScanArgument(c, args, i);
  }

  // A lone "-" that is an option letter without a value is that option.
  lemma {:induction false} LoneDash(c: Config, args: seq<string>, i: nat, k: nat)
    requires i < |args| && args[i] == "-" && k < |c.options| && c.options[k] == '-' && '-' !in c.options[..k]
    requires k + 1 == |c.options| || c.options[k + 1] != ':'
    ensures Reported(c, args, i, "", 1, Event('-' as int, None, None, None))
  {
    hide Scan;
    ScanArgument(c, args, i);
    FirstIs(c.options, '-', k);
    assert "-"[1..] == "";
    StepTaken(c, args, i, "-", Step(c, "-", "-" == args[i], NextArg(args, i)));
  }

  lemma {:induction false} DashesEnd(c: Config, args: seq<string>, i: nat)
    requires i < |args| && args[i] == "--"
    ensures Scan(c, args, i, "") == Scanned([], ["--"], [], args[i + 1..])
  {
    hide Scan;
    ScanArgument(c, args, i);
  }

  // Everything else that begins with a dash is read from behind it.
  lemma DashedEntered(c: Config, args: seq<string>, i: nat, place: string)
    requires i < |args| && args[i] == "-" + place && place != "" && place != "-"
    ensures Scan(c, args, i, "") == Scan(c, args, i, place)
  {
    hide Scan;
    ScanArgument(c, args, i);
    assert args[i][1..] == place;
  }

  lemma StepTaken(c: Config, args: seq<string>, i: nat, place: string, o: Outcome)
    requires i < |args| && place != "" && o == Step(c, place, place == args[i], NextArg(args, i))
    ensures o.place == "" ==> Reported(c, args, i, place, o.advance, o.event)
    ensures o.place != "" ==>
              var r := Scan(c, args, i, o.place);
              Scan(c, args, i, place) == Scanned([o.event] + r.events, r.opts, r.nonopts, r.rest)
  {
    hide Scan, Step;
    ScanStep(c, args, i, place);
    assert args[i..i] == [];
  }

  // ---- Letters ----

  // The letter's first place in the option string has no, one or two colons
  // behind it.
  ghost predicate LetterAt(c: Config, letter: char, k: int) {
    0 <= k < |c.options| && c.options[k] == letter && letter !in c.options[..k] && letter != ':' && letter != '-'
  }

  ghost predicate TakesNothing(c: Config, letter: char) {
    exists k :: LetterAt(c, letter, k) && (k + 1 == |c.options| || c.options[k + 1] != ':')
  }

  ghost predicate TakesValue(c: Config, letter: char) {
    exists k :: LetterAt(c, letter, k) && k + 1 < |c.options| && c.options[k + 1] == ':' &&
                (k + 2 == |c.options| || c.options[k + 2] != ':')
  }

  ghost predicate MayTakeValue(c: Config, letter: char) {
    exists k :: LetterAt(c, letter, k) && k + 2 < |c.options| && c.options[k + 1] == ':' && c.options[k + 2] == ':'
  }

  // The code that tells of a missing or surplus value: ':' if the option string
  // begins with one, else '?'.
  function Complaint(c: Config): int {
    if c.options != "" && c.options[0] == ':' then ':' as int else '?' as int
  }

  lemma {:induction false} FirstIs(s: string, letter: char, k: nat)
    requires k < |s| && s[k] == letter && letter !in s[..k]
    ensures IndexOf(s, letter) == k
    decreases k
  {
    if k > 0 {
      assert s[..k][0] == s[0];
      assert s[..k][1..] == s[1..][..k - 1];
      FirstIs(s[1..], letter, k - 1);
    }
  }

  // A letter without a value, and more behind it.
  lemma {:induction false} LetterThenMore(c: Config, args: seq<string>, i: nat, letter: char, more: string)
    requires i < |args| && TakesNothing(c, letter) && more != ""
    ensures var r := Scan(c, args, i, more);
            Scan(c, args, i, [letter] + more) ==
            Scanned([Event(letter as int, None, None, None)] + r.events, r.opts, r.nonopts, r.rest)
  {
    hide Scan;
    var k :| LetterAt(c, letter, k) && (k + 1 == |c.options| || c.options[k + 1] != ':');
    FirstIs(c.options, letter, k);
    assert ([letter] + more)[1..] == more;
    StepTaken(c, args, i, [letter] + more, Step(c, [letter] + more, [letter] + more == args[i], NextArg(args, i)));
  }

  // The same at the end of the argument.
  lemma {:induction false} LetterAlone(c: Config, args: seq<string>, i: nat, letter: char)
    requires i < |args| && (TakesNothing(c, letter) || MayTakeValue(c, letter))
    ensures Reported(c, args, i, [letter], 1, Event(letter as int, None, None, None))
  {
    hide Scan;
    var k :| LetterAt(c, letter, k) && (k + 1 == |c.options| || c.options[k + 1] != ':' ||
                                        (k + 2 < |c.options| && c.options[k + 2] == ':'));
    FirstIs(c.options, letter, k);
    assert [letter][1..] == "";
    StepTaken(c, args, i, [letter], Step(c, [letter], [letter] == args[i], NextArg(args, i)));
  }

  // "-xvalue".
  lemma {:induction false} LetterWithValue(c: Config, args: seq<string>, i: nat, letter: char, value: string)
    requires i < |args| && (TakesValue(c, letter) || MayTakeValue(c, letter)) && value != ""
    ensures Reported(c, args, i, [letter] + value, 1, Event(letter as int, Some(value), None, None))
  {
    hide Scan;
    var k :| LetterAt(c, letter, k) && k + 1 < |c.options| && c.options[k + 1] == ':';
    FirstIs(c.options, letter, k);
    assert ([letter] + value)[1..] == value;
    StepTaken(c, args, i, [letter] + value, Step(c, [letter] + value, [letter] + value == args[i], NextArg(args, i)));
  }

  // "-x" and the value in the next argument, or the complaint that there is none.
  lemma {:induction false} LetterThenValue(c: Config, args: seq<string>, i: nat, letter: char)
    requires i < |args| && TakesValue(c, letter)
    ensures i + 1 < |args| ==> Reported(c, args, i, [letter], 2, Event(letter as int, Some(args[i + 1]), None, None))
    ensures i + 1 == |args| ==>
              Reported(c, args, i, [letter], 1, Event(Complaint(c), None, Some(letter as int), None))
  {
    hide Scan;
    var k :| LetterAt(c, letter, k) && k + 1 < |c.options| && c.options[k + 1] == ':' &&
             (k + 2 == |c.options| || c.options[k + 2] != ':');
    FirstIs(c.options, letter, k);
    assert [letter][1..] == "";
    StepTaken(c, args, i, [letter], Step(c, [letter], [letter] == args[i], NextArg(args, i)));
  }

  // A letter that is no option, and a colon.
  lemma {:induction false} LetterUnknown(c: Config, args: seq<string>, i: nat, letter: char, more: string)
    requires i < |args| && (letter !in c.options || letter == ':') && letter != '-'
    ensures var e := Event('?' as int, None, Some(letter as int), None);
            if more == "" then Reported(c, args, i, [letter], 1, e)
            else
              var r := Scan(c, args, i, more);
              Scan(c, args, i, [letter] + more) == Scanned([e] + r.events, r.opts, r.nonopts, r.rest)
  {
    hide Scan;
    var place := [letter] + more;
    assert place[1..] == more;
    if more == "" { assert place == [letter]; }
    StepTaken(c, args, i, place, Step(c, place, place == args[i], NextArg(args, i)));
  }

  // "-abc": one event each, in order, and then what the rest says.
  function LetterEvents(letters: string): seq<Event> {
    seq(|letters|, k requires 0 <= k < |letters| => Event(letters[k] as int, None, None, None))
  }

  lemma {:induction false} LettersGrouped(c: Config, args: seq<string>, i: nat, letters: string, more: string)
    requires i < |args| && more != "" && forall k :: 0 <= k < |letters| ==> TakesNothing(c, letters[k])
    ensures var r := Scan(c, args, i, more);
            Scan(c, args, i, letters + more) ==
            Scanned(LetterEvents(letters) + r.events, r.opts, r.nonopts, r.rest)
    decreases |letters|
  {
    hide Scan, TakesNothing;
    if letters == "" {
      assert letters + more == more;
      assert LetterEvents("") == [];
    } else {
      assert forall k :: 0 <= k < |letters[1..]| ==> letters[1..][k] == letters[k + 1];
      LettersGrouped(c, args, i, letters[1..], more);
      LetterThenMore(c, args, i, letters[0], letters[1..] + more);
      assert letters + more == [letters[0]] + (letters[1..] + more);
      assert LetterEvents(letters) == [Event(letters[0] as int, None, None, None)] + LetterEvents(letters[1..]);
    }
  }

  // ---- Long options ----

  // The option that a name stands for: the one with that name, unless two longer
  // names come before it, or the only one that the name abbreviates.
  ghost predicate Names(c: Config, name: string, e: int) {
    || (ExactAt(c.longs, name, e) && !TwoPartialsBefore(c.longs, name, e))
    || (&& 0 <= e < |c.longs| && Partial(c.longs, name, e)
        && forall k :: 0 <= k < |c.longs| ==> c.longs[k].name != name && (Partial(c.longs, name, k) ==> k == e))
  }

  lemma {:induction false} NamesIsMatch(c: Config, name: string, e: nat)
    ensures Names(c, name, e) <==> LongMatch(c.longs, name) == Found(e)
  {
    MatchFromMeaning(c.longs, name, 0, -1);
    if ExactAt(c.longs, name, e) { FullNameFound(c.longs, name, e); }
    if 0 <= e < |c.longs| && Partial(c.longs, name, e) && forall k :: 0 <= k < |c.longs| ==> c.longs[k].name != name {
      AbbreviationFound(c.longs, name, e);
    }
    if LongMatch(c.longs, name) == Found(e) && c.longs[e].name != name {
      assert forall k :: 0 <= k < |c.longs| ==> c.longs[k].name != name && (Partial(c.longs, name, k) ==> k == e);
    }
  }

  function CodeOf(o: LongOption): int {
    if o.flag then 0 else o.val
  }

  function StoredBy(o: LongOption): Option<int> {
    if o.flag then Some(o.val) else None
  }

  lemma FirstEquals(name: string, value: string)
    requires '=' !in name
    ensures IndexOf(name, '=') == -1 && IndexOf(name + "=" + value, '=') == |name|
    ensures (name + "=" + value)[..|name|] == name && (name + "=" + value)[|name| + 1..] == value
  {
    var s := name + "=" + value;
    assert s[..|name|] == name;
    FirstIs(s, '=', |name|);
  }

  // Behind the first dash of "--name" the second one leads to the long options.
  lemma LongEntered(c: Config, args: seq<string>, i: nat, text: string)
    requires i < |args| && args[i] == "--" + text && text != ""
    ensures var o := LongStep(c, text, NextArg(args, i));
            i + o.advance <= |args| && Reported(c, args, i, "", o.advance, o.event)
  {
    hide Scan, LongStep;
    assert args[i] == "-" + ("-" + text);
    DashedEntered(c, args, i, "-" + text);
    assert ("-" + text)[1..] == text;
    StepTaken(c, args, i, "-" + text, Step(c, "-" + text, "-" + text == args[i], NextArg(args, i)));
  }

  // "--name=value": the value is what follows the first '='; an option that takes
  // none complains.
  lemma {:induction false} LongWithValue(c: Config, args: seq<string>, i: nat, name: string, value: string, e: nat)
    requires i < |args| && args[i] == "--" + name + "=" + value && '=' !in name && Names(c, name, e)
    ensures e < |c.longs|
    ensures var o := c.longs[e];
            Reported(c, args, i, "", 1,
                     if o.hasArg.NoArgument? then Event(Complaint(c), None, Some(CodeOf(o)), None)
                     else Event(CodeOf(o), Some(value), None, StoredBy(o)))
  {
    hide Scan, LongMatch, Names;
    NamesIsMatch(c, name, e);
    MatchInRange(c.longs, name);
    FirstEquals(name, value);
    assert args[i] == "--" + (name + "=" + value);
    LongEntered(c, args, i, name + "=" + value);
  }

  // "--name": the value of an option that must have one is the next argument.
  lemma {:induction false} LongWithoutValue(c: Config, args: seq<string>, i: nat, name: string, e: nat)
    requires i < |args| && args[i] == "--" + name && name != "" && '=' !in name && Names(c, name, e)
    ensures e < |c.longs|
    ensures var o := c.longs[e];
            if !o.hasArg.RequiredArgument? then
              Reported(c, args, i, "", 1, Event(CodeOf(o), None, None, StoredBy(o)))
            else if i + 1 < |args| then
              Reported(c, args, i, "", 2, Event(CodeOf(o), Some(args[i + 1]), None, StoredBy(o)))
            else
              Reported(c, args, i, "", 1, Event(Complaint(c), None, Some(CodeOf(o)), None))
  {
    hide Scan, LongMatch, Names;
    NamesIsMatch(c, name, e);
    MatchInRange(c.longs, name);
    FirstEquals(name, "");
    LongEntered(c, args, i, name);
  }

  // A name that stands for no option, with a value or without.
  lemma {:induction false} LongUnknown(c: Config, args: seq<string>, i: nat, name: string, tail: string)
    requires i < |args| && args[i] == "--" + name + tail && name + tail != "" && '=' !in name
    requires (tail == "" || tail[0] == '=') && forall e: nat :: !Names(c, name, e)
    ensures Reported(c, args, i, "", 1, Event('?' as int, None, Some(0), None))
  {
    hide Scan, LongMatch, Names;
    if LongMatch(c.longs, name).Found? { NamesIsMatch(c, name, LongMatch(c.longs, name).index); }
    assert args[i] == "--" + (name + tail);
    if tail == "" {
      FirstEquals(name, "");
      assert name + tail == name;
    } else {
      FirstEquals(name, tail[1..]);
      assert name + tail == name + "=" + tail[1..];
    }
    LongEntered(c, args, i, name + tail);
  }

  // ---- A whole command line ----

  // A full name with its value, as the only argument.
  lemma {:induction false} OneLongOption(c: Config, program: string, name: string, value: string, e: nat)
    requires ExactAt(c.longs, name, e) && !TwoPartialsBefore(c.longs, name, e) && '=' !in name
    requires c.longs[e].hasArg.RequiredArgument? && !c.longs[e].flag
    ensures Scan(c, [program, "--" + name + "=" + value], 1, "") ==
            Scanned([Event(c.longs[e].val, Some(value), None, None)], ["--" + name + "=" + value], [], [])
  {
    hide Scan;
    var args := [program, "--" + name + "=" + value];
    LongWithValue(c, args, 1, name, value, e);
    ScanArgument(c, args, 2);
    assert args[1..2] + [] == ["--" + name + "=" + value];
  }
}
