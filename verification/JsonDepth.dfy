// The nesting limit on JSON values, checked with an explicit stack.
module JsonDepth {

  datatype Member = Member(name: string, value: Value)

  datatype Value = Scalar | Array(items: seq<Value>) | Object(members: seq<Member>)

  // The levels of a value: a scalar or an empty container is one.
  function Height(v: Value): nat {
    match v
    case Scalar => 1
    case Array(items) => 1 + TallestItem(items)
    case Object(members) => 1 + TallestMember(members)
  }

  function Max(a: nat, b: nat): nat {
    if a >= b then a else b
  }

  function TallestItem(items: seq<Value>): nat {
    if items == [] then 0 else Max(Height(items[0]), TallestItem(items[1..]))
  }

  function TallestMember(members: seq<Member>): nat {
    if members == [] then 0 else Max(Height(members[0].value), TallestMember(members[1..]))
  }

  function Nodes(v: Value): nat {
    match v
    case Scalar => 1
    case Array(items) => 1 + ItemNodes(items)
    case Object(members) => 1 + MemberNodes(members)
  }

  function ItemNodes(items: seq<Value>): nat {
    if items == [] then 0 else Nodes(items[0]) + ItemNodes(items[1..])
  }

  function MemberNodes(members: seq<Member>): nat {
    if members == [] then 0 else Nodes(members[0].value) + MemberNodes(members[1..])
  }

  // A subtree waiting on the stack, with the level of its root.
  type Entry = (Value, nat)

  // Every waiting subtree stays within the limit.
  ghost predicate Fits(stack: seq<Entry>, limit: nat) {
    forall i :: 0 <= i < |stack| ==> stack[i].1 + Height(stack[i].0) <= limit + 1
  }

  function StackNodes(stack: seq<Entry>): nat {
    if stack == [] then 0 else StackNodes(stack[..|stack| - 1]) + Nodes(stack[|stack| - 1].0)
  }

  ghost predicate Levels(stack: seq<Entry>, limit: nat) {
    forall i :: 0 <= i < |stack| ==> 1 <= stack[i].1 <= limit
  }

  lemma PushStack(stack: seq<Entry>, e: Entry, limit: nat)
    ensures Fits(stack + [e], limit) <==> Fits(stack, limit) && e.1 + Height(e.0) <= limit + 1
    ensures StackNodes(stack + [e]) == StackNodes(stack) + Nodes(e.0)
  {
    assert (stack + [e])[..|stack|] == stack;
    if Fits(stack + [e], limit) {
      assert (stack + [e])[|stack|] == e;
      assert forall i :: 0 <= i < |stack| ==> (stack + [e])[i] == stack[i];
    }
  }

  lemma SplitLast<T>(s: seq<T>)
    requires s != []
    ensures s == s[..|s| - 1] + [s[|s| - 1]]
  {
  }

  lemma NextItem(items: seq<Value>, it: nat)
    requires it < |items|
    ensures TallestItem(items[it..]) == Max(Height(items[it]), TallestItem(items[it + 1..]))
    ensures ItemNodes(items[it..]) == Nodes(items[it]) + ItemNodes(items[it + 1..])
  {
    assert items[it..][1..] == items[it + 1..];
  }

  lemma Nothing()
    ensures TallestItem([]) == 0 && ItemNodes([]) == 0
    ensures TallestMember([]) == 0 && MemberNodes([]) == 0
  {
  }

  // The loop over an array's elements.
  method PushItems(stack0: seq<Entry>, items: seq<Value>, depth: nat, ghost limit: nat) returns (stack: seq<Entry>)
    requires Levels(stack0, limit) && 1 <= depth && (items != [] ==> depth <= limit)
    ensures Levels(stack, limit) && (items == [] ==> stack == stack0)
    ensures items != [] ==> (Fits(stack, limit) <==> Fits(stack0, limit) && depth + TallestItem(items) <= limit + 1)
    ensures StackNodes(stack) == StackNodes(stack0) + ItemNodes(items)
  {
    hide Height, Nodes, TallestItem, ItemNodes, StackNodes, Fits;
    Nothing();
    stack := stack0;
    var it := 0;
    assert items[0..] == items && items[|items|..] == [];
    while it < |items|
      invariant 0 <= it <= |items| && Levels(stack, limit) && (it == 0 ==> stack == stack0)
      invariant StackNodes(stack) + ItemNodes(items[it..]) == StackNodes(stack0) + ItemNodes(items)
      invariant Fits(stack, limit) && depth + TallestItem(items[it..]) <= limit + 1
           <==> Fits(stack0, limit) && depth + TallestItem(items) <= limit + 1
    {
      PushStack(stack, (items[it], depth), limit);
      NextItem(items, it);
      stack := stack + [(items[it], depth)];
      it := it + 1;
    }
  }

  lemma NextMember(members: seq<Member>, it: nat)
    requires it < |members|
    ensures TallestMember(members[it..]) == Max(Height(members[it].value), TallestMember(members[it + 1..]))
    ensures MemberNodes(members[it..]) == Nodes(members[it].value) + MemberNodes(members[it + 1..])
  {
    assert members[it..][1..] == members[it + 1..];
  }

  // The loop over an object's members.
  method PushMembers(stack0: seq<Entry>, members: seq<Member>, depth: nat, ghost limit: nat) returns (stack: seq<Entry>)
    requires Levels(stack0, limit) && 1 <= depth && (members != [] ==> depth <= limit)
    ensures Levels(stack, limit) && (members == [] ==> stack == stack0)
    ensures members != [] ==> (Fits(stack, limit) <==> Fits(stack0, limit) && depth + TallestMember(members) <= limit + 1)
    ensures StackNodes(stack) == StackNodes(stack0) + MemberNodes(members)
  {
    hide Height, Nodes, TallestMember, MemberNodes, StackNodes, Fits;
    Nothing();
    stack := stack0;
    var it := 0;
    assert members[0..] == members && members[|members|..] == [];
    while it < |members|
      invariant 0 <= it <= |members| && Levels(stack, limit) && (it == 0 ==> stack == stack0)
      invariant StackNodes(stack) + MemberNodes(members[it..]) == StackNodes(stack0) + MemberNodes(members)
      invariant Fits(stack, limit) && depth + TallestMember(members[it..]) <= limit + 1
           <==> Fits(stack0, limit) && depth + TallestMember(members) <= limit + 1
    {
      PushStack(stack, (members[it].value, depth), limit);
      NextMember(members, it);
      stack := stack + [(members[it].value, depth)];
      it := it + 1;
    }
  }

  // A way down from a value: at each step the place of an element or member.
  ghost predicate Descends(v: Value, path: seq<nat>)
    decreases |path|
  {
    || path == []
    || (v.Array? && path[0] < |v.items| && Descends(v.items[path[0]], path[1..]))
    || (v.Object? && path[0] < |v.members| && Descends(v.members[path[0]].value, path[1..]))
  }

  // The height is one more than the longest way down.
  lemma {:induction false} HeightIsLongestWay(v: Value)
    ensures forall path :: Descends(v, path) ==> |path| < Height(v)
    ensures exists path :: Descends(v, path) && |path| == Height(v) - 1
  {
    TallPositive(v);
    forall path | Descends(v, path)
      ensures |path| < Height(v)
    {
      WayWithinHeight(v, path);
    }
    var path := LongestWay(v);
  }

  lemma {:induction false} WayWithinHeight(v: Value, path: seq<nat>)
    requires Descends(v, path)
    ensures |path| < Height(v)
    decreases |path|
  {
    TallPositive(v);
    if path != [] {
      if v.Array? {
        WayWithinHeight(v.items[path[0]], path[1..]);
        ItemWithinTallest(v.items, path[0]);
      } else {
        WayWithinHeight(v.members[path[0]].value, path[1..]);
        MemberWithinTallest(v.members, path[0]);
      }
    }
  }

  lemma {:induction false} ItemWithinTallest(items: seq<Value>, k: nat)
    requires k < |items|
    ensures Height(items[k]) <= TallestItem(items)
  {
    if k > 0 { ItemWithinTallest(items[1..], k - 1); }
  }

  lemma {:induction false} MemberWithinTallest(members: seq<Member>, k: nat)
    requires k < |members|
    ensures Height(members[k].value) <= TallestMember(members)
  {
    if k > 0 { MemberWithinTallest(members[1..], k - 1); }
  }

  lemma {:induction false} TallestItemIs(items: seq<Value>) returns (k: nat)
    requires items != []
    ensures k < |items| && Height(items[k]) == TallestItem(items)
  {
    k := 0;
    if |items| > 1 && Height(items[0]) < TallestItem(items[1..]) {
      k := TallestItemIs(items[1..]);
      k := k + 1;
    }
  }

  lemma {:induction false} TallestMemberIs(members: seq<Member>) returns (k: nat)
    requires members != []
    ensures k < |members| && Height(members[k].value) == TallestMember(members)
  {
    k := 0;
    if |members| > 1 && Height(members[0].value) < TallestMember(members[1..]) {
      k := TallestMemberIs(members[1..]);
      k := k + 1;
    }
  }

  lemma {:induction false} LongestWay(v: Value) returns (path: seq<nat>)
    ensures Descends(v, path) && |path| == Height(v) - 1
  {
    path := [];
    if v.Array? && v.items != [] {
      var k := TallestItemIs(v.items);
      var rest := LongestWay(v.items[k]);
      path := [k] + rest;
      assert path[1..] == rest;
    } else if v.Object? && v.members != [] {
      var k := TallestMemberIs(v.members);
      var rest := LongestWay(v.members[k].value);
      path := [k] + rest;
      assert path[1..] == rest;
    }
  }

  lemma OneLevel(v: Value)
    ensures v.Scalar? ==> Height(v) == Nodes(v) == 1
    ensures v.Array? ==> Height(v) == 1 + TallestItem(v.items) && Nodes(v) == 1 + ItemNodes(v.items)
    ensures v.Object? ==> Height(v) == 1 + TallestMember(v.members) && Nodes(v) == 1 + MemberNodes(v.members)
  {
  }

  lemma TallPositive(v: Value)
    ensures Height(v) >= 1
    ensures v.Array? && v.items != [] ==> Height(v) >= 2
    ensures v.Object? && v.members != [] ==> Height(v) >= 2
  {
    if v.Array? && v.items != [] { TallPositive(v.items[0]); }
    if v.Object? && v.members != [] { TallPositive(v.members[0].value); }
  }

  // isWithinJsonDepthLimit: exactly the values no higher than the limit, where a
  // limit of 0 still admits what has no second level.
  method IsWithinJsonDepthLimit(value: Value, maxDepth: nat) returns (within: bool)
    ensures within <==> Height(value) <= Max(maxDepth, 1)
  {
    hide Height, Nodes, TallestItem, TallestMember, ItemNodes, MemberNodes;
    Nothing();
    ghost var limit := Max(maxDepth, 1);
    var stack: seq<Entry> := [(value, 1)];
    PushStack([], (value, 1), limit);
    assert [] + [(value, 1)] == stack;
    while stack != []
      invariant Levels(stack, limit)
      invariant Fits(stack, limit) <==> Height(value) <= limit
      decreases StackNodes(stack)
    {
      var node, depth := stack[|stack| - 1].0, stack[|stack| - 1].1;
      SplitLast(stack);
      PushStack(stack[..|stack| - 1], stack[|stack| - 1], limit);
      TallPositive(node);
      OneLevel(node);
      stack := stack[..|stack| - 1];
      if node.Object? {
        if |node.members| > 0 && depth >= maxDepth {
          return false;
        }
        stack := PushMembers(stack, node.members, depth + 1, limit);
      } else if node.Array? {
        if node.items != [] && depth >= maxDepth {
          return false;
        }
        stack := PushItems(stack, node.items, depth + 1, limit);
      }
    }
    return true;
  }
}
