// In-place exchange of two adjacent blocks of the argument vector.
module ArgBlocks {
  import opened Cycles

  // The first block moved behind the second, and nothing else changed.
  function Exchange<T>(s: seq<T>, first: int, second: int, end: int): seq<T>
    requires 0 <= first <= second <= end <= |s|
  {
    s[..first] + s[second..end] + s[first..second] + s[end..]
  }

  method ComputeGcd(a0: int, b0: int) returns (g: int)
    requires a0 > 0 && b0 > 0
    ensures g == Gcd(a0, b0)
  {
    var a, b := a0, b0;
    var c := a % b;
    while c != 0
      invariant a > 0 && b > 0 && c == a % b && Gcd(a, b) == Gcd(a0, b0)
      decreases b
    {
      GcdOfMultiple(a, b);
      a := b;
      b := c;
      c := a % b;
    }
    GcdOfMultiple(a, b);
    g := b;
  }

  predicate Blocks<T>(s: seq<T>, now: seq<T>, a: int, b: int, l: int) {
    a > 0 && b > 0 && l * Gcd(a, b) == a + b && |s| == |now| == a + b
  }

  // Where the element that the walk brings to y comes from.
  function Source(a: int, b: int, y: int): int {
    if y >= b then y - b else y + a
  }

  // What position y holds once its whole cycle, and the first i cycles, are done.
  ghost predicate CyclesDone<T>(s: seq<T>, now: seq<T>, a: int, b: int, l: int, i: int)
    requires Blocks(s, now, a, b, l)
  {
    forall y :: 0 <= y < a + b ==>
      now[y] == s[if Where(a, b, l, y).0 < i then Source(a, b, y) else y]
  }

  // The blocks after i whole cycles and j further steps, the last of them at
  // position p: the start of the cycle holds the element from p, and the
  // positions met so far hold what belongs there.
  function Expected(a: int, b: int, w: (int, int), y: int, i: int, j: int, p: int): int {
    if w.0 < i || (w.0 == i && 1 <= w.1 <= j) then Source(a, b, y)
    else if w == (i, 0) then p
    else y
  }

  ghost predicate Placed<T>(s: seq<T>, now: seq<T>, a: int, b: int, l: int, i: int, j: int, p: int)
    requires Blocks(s, now, a, b, l)
  {
    && 0 <= i < Gcd(a, b) && 0 <= j < l && 0 <= p < a + b && Where(a, b, l, p) == (i, j)
    && forall y :: 0 <= y < a + b ==>
         var e := Expected(a, b, Where(a, b, l, y), y, i, j, p); 0 <= e < a + b && now[y] == s[e]
  }

  lemma SamePlace(a: int, b: int, l: int, x: int, y: int)
    requires a > 0 && b > 0 && l * Gcd(a, b) == a + b && 0 <= x < a + b && 0 <= y < a + b
    ensures Where(a, b, l, x) == Where(a, b, l, y) ==> x == y
  {
  }

  lemma WhereStart(a: int, b: int, l: int, i: int)
    requires a > 0 && b > 0 && l * Gcd(a, b) == a + b && 0 <= i < Gcd(a, b)
    ensures l >= 1 && Where(a, b, l, a + i) == (i, 0)
  {
    MulBound(l, Gcd(a, b));
    PosWraps(a, b, l, i);
    WhereIs(a, b, l, i, 0);
  }

  lemma {:induction false} CycleStarts<T>(s: seq<T>, now: seq<T>, a: int, b: int, l: int, i: int)
    requires Blocks(s, now, a, b, l) && 0 <= i < Gcd(a, b) && CyclesDone(s, now, a, b, l, i)
    ensures Placed(s, now, a, b, l, i, 0, a + i)
  {
    WhereStart(a, b, l, i);
    forall y | 0 <= y < a + b
      ensures var e := Expected(a, b, Where(a, b, l, y), y, i, 0, a + i); 0 <= e < a + b && now[y] == s[e]
    {
      SamePlace(a, b, l, y, a + i);
    }
  }

  function SwapAt<T>(now: seq<T>, p: int, q: int): seq<T>
    requires 0 <= p < |now| && 0 <= q < |now|
  {
    now[q := now[p]][p := now[q]]
  }

  // Exchanging the entry at the next position with that at the start is a step;
  // the last step of a cycle, which comes back to the start, completes it.
  lemma {:induction false} PlacedStep<T>(s: seq<T>, now: seq<T>, a: int, b: int, l: int, i: int, j: int, p: int)
    requires Blocks(s, now, a, b, l) && Placed(s, now, a, b, l, i, j, p)
    ensures 0 <= Next(a, b, p) < a + b && a + i < a + b
    ensures var now' := SwapAt(now, a + i, Next(a, b, p));
            if j + 1 < l then Placed(s, now', a, b, l, i, j + 1, Next(a, b, p))
            else CyclesDone(s, now', a, b, l, i + 1)
  {
    var c, q := a + i, Next(a, b, p);
    WhereNext(a, b, l, p);
    WhereStart(a, b, l, i);
    var now' := SwapAt(now, c, q);
    assert Source(a, b, q) == p;
    assert now[c] == s[p] && (j + 1 < l ==> now[q] == s[q]) && (j + 1 == l ==> q == c) by {
      SamePlace(a, b, l, q, c);
    }
    forall y | 0 <= y < a + b
      ensures var w := Where(a, b, l, y);
              var e := Expected(a, b, w, y, i, j + 1, q);
              0 <= e < a + b
              && (j + 1 < l ==> now'[y] == s[e])
              && (j + 1 == l ==> now'[y] == s[if w.0 < i + 1 then Source(a, b, y) else y])
    {
      SamePlace(a, b, l, y, q);
      SamePlace(a, b, l, y, c);
    }
  }

  // n steps of the inner loop from position p, on the contents of the blocks.
  function Steps<T>(now: seq<T>, a: int, b: int, c: int, p: int, n: nat): seq<T>
    requires a > 0 && b > 0 && |now| == a + b && 0 <= c < a + b && 0 <= p < a + b
    ensures |Steps(now, a, b, c, p, n)| == a + b
    decreases n
  {
    if n == 0 then now else Steps(SwapAt(now, c, Next(a, b, p)), a, b, c, Next(a, b, p), n - 1)
  }

  // Cycles i, ..., k - 1 of the outer loop.
  function CycleRuns<T>(now: seq<T>, a: int, b: int, l: nat, i: nat, k: nat): seq<T>
    requires a > 0 && b > 0 && |now| == a + b && i <= k <= b
    ensures |CycleRuns(now, a, b, l, i, k)| == a + b
    decreases k - i
  {
    if i == k then now else CycleRuns(Steps(now, a, b, a + i, a + i, l), a, b, l, i + 1, k)
  }

  lemma {:induction false} StepsFinishCycle<T>(s: seq<T>, now: seq<T>, a: int, b: int, l: int, i: int, j: int, p: int)
    requires Blocks(s, now, a, b, l) && Placed(s, now, a, b, l, i, j, p)
    ensures a + i < a + b && CyclesDone(s, Steps(now, a, b, a + i, p, l - j), a, b, l, i + 1)
    decreases l - j
  {
    PlacedStep(s, now, a, b, l, i, j, p);
    if j + 1 < l {
      StepsFinishCycle(s, SwapAt(now, a + i, Next(a, b, p)), a, b, l, i, j + 1, Next(a, b, p));
    }
  }

  lemma {:induction false} CyclesFinish<T>(s: seq<T>, now: seq<T>, a: int, b: int, l: int, i: int)
    requires Blocks(s, now, a, b, l) && l > 0 && 0 <= i <= Gcd(a, b) && CyclesDone(s, now, a, b, l, i)
    ensures CyclesDone(s, CycleRuns(now, a, b, l, i, Gcd(a, b)), a, b, l, Gcd(a, b))
    decreases Gcd(a, b) - i
  {
    if i < Gcd(a, b) {
      CycleStarts(s, now, a, b, l, i);
      StepsFinishCycle(s, now, a, b, l, i, 0, a + i);
      CyclesFinish(s, Steps(now, a, b, a + i, a + i, l), a, b, l, i + 1);
    }
  }

  // The gcd-many cycles of swaps turn the two blocks around.
  lemma {:induction false} CyclesExchange<T>(s: seq<T>, a: int, b: int, l: int)
    requires a > 0 && b > 0 && |s| == a + b && l == (a + b) / Gcd(a, b) && l >= 0
    ensures CycleRuns(s, a, b, l, 0, Gcd(a, b)) == s[a..] + s[..a]
  {
    hide CycleRuns, Where, Gcd, Source, CyclesDone;
    CycleLength(a, b, l);
    NoCycleDone(s, a, b, l);
    CyclesFinish(s, s, a, b, l, 0);
    AllCyclesDone(s, CycleRuns(s, a, b, l, 0, Gcd(a, b)), a, b, l);
  }

  lemma NoCycleDone<T>(s: seq<T>, a: int, b: int, l: int)
    requires Blocks(s, s, a, b, l)
    ensures CyclesDone(s, s, a, b, l, 0)
  {
  }

  lemma AllCyclesDone<T>(s: seq<T>, now: seq<T>, a: int, b: int, l: int)
    requires Blocks(s, now, a, b, l) && CyclesDone(s, now, a, b, l, Gcd(a, b))
    ensures now == s[a..] + s[..a]
  {
    hide Gcd;
    forall y | 0 <= y < a + b
      ensures now[y] == (s[a..] + s[..a])[y]
    {
      assert Where(a, b, l, y).0 < Gcd(a, b);
      assert now[y] == s[Source(a, b, y)];
    }
  }

  lemma SwapWithin<T>(l: seq<T>, now: seq<T>, r: seq<T>, p: int, q: int)
    requires 0 <= p < |now| && 0 <= q < |now|
    ensures SwapAt(l + now + r, |l| + p, |l| + q) == l + SwapAt(now, p, q) + r
  {
  }

  method Swap<T>(nargv: array<T>, p: int, q: int)
    requires 0 <= p < nargv.Length && 0 <= q < nargv.Length
    modifies nargv
    ensures nargv[..] == SwapAt(old(nargv[..]), p, q)
  {
    var swap := nargv[q];
    nargv[q] := nargv[p];
    nargv[p] := swap;
  }

  // permute_args, the inner loop.
  method RunCycle<T>(first: int, second: int, end: int, nargv: array<T>, cstart: int, cyclelen: int,
                     ghost l: seq<T>, ghost s: seq<T>, ghost r: seq<T>)
    requires 0 <= first < second <= cstart < end <= nargv.Length && cyclelen >= 0
    requires |l| == first && |s| == end - first && nargv[..] == l + s + r
    modifies nargv
    ensures nargv[..] ==
            l + Steps(s, second - first, end - second, cstart - first, cstart - first, cyclelen) + r
  {
    hide SwapAt;
    ghost var now := s;
    var pos := cstart;
    var j := 0;
    while j < cyclelen
      invariant 0 <= j <= cyclelen && first <= pos < end
      invariant |now| == |s| && nargv[..] == l + now + r
      invariant Steps(now, second - first, end - second, cstart - first, pos - first, cyclelen - j)
             == Steps(s, second - first, end - second, cstart - first, cstart - first, cyclelen)
    {
      if pos >= second {
        pos := pos - (second - first);
      } else {
        pos := pos + (end - second);
      }
      SwapWithin(l, now, r, cstart - first, pos - first);
      now := SwapAt(now, cstart - first, pos - first);
      Swap(nargv, cstart, pos);
      j := j + 1;
    }
  }

  // permute_args.
  method PermuteArgs<T>(first: int, second: int, end: int, nargv: array<T>)
    requires 0 <= first < second < end <= nargv.Length
    modifies nargv
    ensures nargv[..] == Exchange(old(nargv[..]), first, second, end)
  {
    var nnonopts := second - first;
    var nopts := end - second;
    var ncycle := ComputeGcd(nnonopts, nopts);
    var cyclelen := (end - first) / ncycle;
    ghost var l, s, r := nargv[..first], nargv[first..end], nargv[end..];
    ghost var now := s;
    assert nargv[..] == l + now + r;
    var i := 0;
    while i < ncycle
      invariant 0 <= i <= ncycle && |now| == |s|
      invariant nargv[..] == l + now + r
      invariant CycleRuns(now, nnonopts, nopts, cyclelen, i, ncycle) == CycleRuns(s, nnonopts, nopts, cyclelen, 0, ncycle)
    {
      RunCycle(first, second, end, nargv, second + i, cyclelen, l, now, r);
      now := Steps(now, nnonopts, nopts, nnonopts + i, nnonopts + i, cyclelen);
      i := i + 1;
    }
    CyclesExchange(s, nnonopts, nopts, cyclelen);
    SplitBlocks(old(nargv[..]), first, second, end);
  }

  lemma SplitBlocks<T>(t: seq<T>, first: int, second: int, end: int)
    requires 0 <= first <= second <= end <= |t|
    ensures var s := t[first..end];
            t[..first] + (s[second - first..] + s[..second - first]) + t[end..] == Exchange(t, first, second, end)
  {
  }

  lemma CycleLength(a: int, b: int, l: int)
    requires a > 0 && b > 0 && l == (a + b) / Gcd(a, b)
    ensures l * Gcd(a, b) == a + b && l > 0
  {
    var p, q, u, v := Bezout(a, b);
    MulAdd(p, q, Gcd(a, b));
    RemainderIs(a + b, Gcd(a, b), p + q, 0);
    MulBound(l, Gcd(a, b));
  }
}
