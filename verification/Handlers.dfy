/** The client's table of message handlers. */
module Handlers {
  import opened Bytes
  import opened Topics

  /** One element of `messageHandlers`; handlers are named by numbers, `None` is a null pointer. */
  datatype Slot = Slot(filter: Option<seq<Byte>>, fp: Option<nat>)

  const SUCCESS := 0
  const FAILURE := -1

  /** No filter in two slots, a handler in every occupied one. */
  ghost predicate Consistent(s: seq<Slot>) {
    && (forall i :: 0 <= i < |s| && s[i].filter.Some? ==> s[i].fp.Some?)
    && (forall i, j :: 0 <= i < j < |s| && s[i].filter.Some? ==> s[i].filter != s[j].filter)
  }

  /** The map the table stands for. */
  function Table(s: seq<Slot>): map<seq<Byte>, nat> {
    if s == [] then map[]
    else if s[0].filter == None then Table(s[1..])
    else Table(s[1..])[s[0].filter.value := Handler(s[0])]
  }

  function Handler(slot: Slot): nat {
    if slot.fp.Some? then slot.fp.value else 0
  }

  /** The first slot with this filter pointer, or the length when there is none. */
  function IndexOf(s: seq<Slot>, f: Option<seq<Byte>>): (k: nat)
    ensures k <= |s| && (forall i :: 0 <= i < k ==> s[i].filter != f)
    ensures k < |s| ==> s[k].filter == f
  {
    if s == [] || s[0].filter == f then 0
    else
      var k := IndexOf(s[1..], f);
      assert forall i :: 0 < i < k + 1 ==> s[i] == s[1..][i - 1];
      k + 1
  }

  /** The slots after setting (or, with `None`, removing) the handler of a filter. */
  function SetSlots(s: seq<Slot>, f: seq<Byte>, h: Option<nat>): (r: seq<Slot>)
    ensures |r| == |s|
  {
    var i := IndexOf(s, Some(f));
    if h == None then
      if i < |s| then s[i := Slot(None, None)] else s
    else
      var j := if i < |s| then i else IndexOf(s, None);
      if j < |s| then s[j := Slot(Some(f), h)] else s
  }

  /** Looking a filter up in the map is searching the slots for it. */
  lemma {:induction false} Lookup(s: seq<Slot>, f: seq<Byte>)
    ensures var i := IndexOf(s, Some(f));
            (f in Table(s) <==> i < |s|) && (i < |s| ==> Table(s)[f] == Handler(s[i]))
  {
    if s != [] && s[0].filter != Some(f) {
      Lookup(s[1..], f);
    }
  }

  lemma ConsistentTail(s: seq<Slot>)
    requires Consistent(s) && s != []
    ensures Consistent(s[1..]) && (s[0].filter.Some? ==> s[0].filter.value !in Table(s[1..]))
  {
    assert forall i :: 0 <= i < |s| - 1 ==> s[1..][i] == s[i + 1];
    if s[0].filter.Some? {
      Lookup(s[1..], s[0].filter.value);
    }
  }

  /** As many filters as slots exactly when no slot is free. */
  lemma {:induction false} FullTable(s: seq<Slot>)
    requires Consistent(s)
    ensures |Table(s)| <= |s| && (|Table(s)| == |s| <==> IndexOf(s, None) == |s|)
  {
    hide Consistent, Handler;
    if s != [] {
      ConsistentTail(s);
      FullTable(s[1..]);
    }
  }

  lemma {:induction false} TableUpdate(s: seq<Slot>, j: nat, f: seq<Byte>, h: nat)
    requires j < |s| && (j == IndexOf(s, Some(f)) || (IndexOf(s, Some(f)) == |s| && s[j].filter == None))
    ensures Table(s[j := Slot(Some(f), Some(h))]) == Table(s)[f := h]
  {
    var r := s[j := Slot(Some(f), Some(h))];
    if j == 0 {
      assert r[1..] == s[1..];
    } else {
      assert r[1..] == s[1..][j - 1 := Slot(Some(f), Some(h))];
      TableUpdate(s[1..], j - 1, f, h);
    }
  }

  lemma {:induction false} TableRemove(s: seq<Slot>, i: nat, f: seq<Byte>)
    requires Consistent(s) && i < |s| && i == IndexOf(s, Some(f))
    ensures Table(s[i := Slot(None, None)]) == Table(s) - {f}
  {
    hide Consistent, Handler;
    ConsistentTail(s);
    var r := s[i := Slot(None, None)];
    if i == 0 {
      assert r[1..] == s[1..];
    } else {
      assert r[1..] == s[1..][i - 1 := Slot(None, None)];
      TableRemove(s[1..], i - 1, f);
    }
  }

  lemma SetConsistent(s: seq<Slot>, f: seq<Byte>, h: Option<nat>)
    requires Consistent(s)
    ensures Consistent(SetSlots(s, f, h))
  {
  }

  /** Setting a handler is an update of the map, when the filter is there or a slot is free. */
  lemma SetMeans(s: seq<Slot>, f: seq<Byte>, h: nat)
    requires Consistent(s)
    ensures var r := SetSlots(s, f, Some(h));
            && (f in Table(s) || |Table(s)| < |s| ==> Table(r) == Table(s)[f := h])
            && (f !in Table(s) && |Table(s)| >= |s| ==> r == s)
            && (IndexOf(s, Some(f)) < |s| || IndexOf(s, None) < |s| <==> f in Table(s) || |Table(s)| < |s|)
  {
    hide Table, IndexOf, Consistent;
    FullTable(s);
    Lookup(s, f);
    var i := IndexOf(s, Some(f));
    var j := if i < |s| then i else IndexOf(s, None);
    if j < |s| {
      TableUpdate(s, j, f, h);
    }
  }

  /** Removing a handler takes its filter out of the map and nothing else. */
  lemma RemoveMeans(s: seq<Slot>, f: seq<Byte>)
    requires Consistent(s)
    ensures Table(SetSlots(s, f, None)) == Table(s) - {f}
    ensures IndexOf(s, Some(f)) < |s| <==> f in Table(s)
  {
    hide Table, IndexOf, Consistent;
    Lookup(s, f);
    if IndexOf(s, Some(f)) < |s| {
      TableRemove(s, IndexOf(s, Some(f)), f);
    }
  }

  lemma {:induction false} EmptyTable(s: seq<Slot>)
    requires forall i :: 0 <= i < |s| ==> s[i].filter == None
    ensures Table(s) == map[]
  {
    if s != [] {
      EmptyTable(s[1..]);
    }
  }

  /** The slots after `MQTTCleanSession`: the filters go, the handler pointers stay. */
  function Cleaned(s: seq<Slot>): seq<Slot> {
    seq(|s|, i requires 0 <= i < |s| => Slot(None, s[i].fp))
  }

  /** The test `deliverMessage` makes of a slot. */
  predicate Matches(slot: Slot, name: seq<Byte>) {
    slot.filter.Some? && (name == slot.filter.value || Scan(slot.filter.value, name))
  }

  predicate Callable(slot: Slot, name: seq<Byte>) { Matches(slot, name) && slot.fp.Some? }

  /** The handlers of the matching slots, in slot order. */
  function Matching(s: seq<Slot>, name: seq<Byte>): seq<nat> {
    if s == [] then []
    else
      var n := |s| - 1;
      Matching(s[..n], name) + if Callable(s[n], name) then [s[n].fp.value] else []
  }

  /** `ix` lists the slots with a callable handler, and `calls` their handlers. */
  ghost predicate Lists(ix: seq<nat>, calls: seq<nat>, s: seq<Slot>, name: seq<Byte>) {
    && |ix| == |calls|
    && (forall k :: 0 <= k < |ix| ==> ix[k] < |s| && Callable(s[ix[k]], name) && s[ix[k]].fp == Some(calls[k]))
    && (forall i :: 0 <= i < |s| && Callable(s[i], name) ==> i in ix)
  }

  ghost predicate Ascending(ix: seq<nat>) {
    forall k, l :: 0 <= k < l < |ix| ==> ix[k] < ix[l]
  }

  lemma ListsMore(ix: seq<nat>, calls: seq<nat>, s: seq<Slot>, slot: Slot, name: seq<Byte>)
    requires Lists(ix, calls, s, name)
    ensures !Callable(slot, name) ==> Lists(ix, calls, s + [slot], name)
    ensures Callable(slot, name) ==> Lists(ix + [|s|], calls + [slot.fp.value], s + [slot], name)
  {
    hide Matches;
    var t := s + [slot];
    assert forall i :: 0 <= i < |s| ==> t[i] == s[i];
    if Callable(slot, name) {
      var jx := ix + [|s|];
      forall i | 0 <= i < |t| && Callable(t[i], name) ensures i in jx {
        assert i == |s| ==> jx[|ix|] == i;
      }
    }
  }

  lemma AscendingMore(ix: seq<nat>, calls: seq<nat>, s: seq<Slot>, name: seq<Byte>)
    requires Lists(ix, calls, s, name) && Ascending(ix)
    ensures Ascending(ix + [|s|])
  {
    hide Callable;
  }

  lemma ListsNone(name: seq<Byte>)
    ensures Lists([], Matching([], name), [], name) && Ascending([])
  {
  }

  lemma MatchingStep(s: seq<Slot>, name: seq<Byte>)
    requires s != []
    ensures var n := |s| - 1;
            Matching(s, name) == Matching(s[..n], name) + if Callable(s[n], name) then [s[n].fp.value] else []
  {
    hide Matches;
  }

  /** Each matching slot is called exactly once, in ascending order, and no other slot is. */
  lemma {:induction false} MatchingSlots(s: seq<Slot>, name: seq<Byte>) returns (ix: seq<nat>)
    ensures Lists(ix, Matching(s, name), s, name) && Ascending(ix)
  {
    hide Lists, Ascending, Matching, Matches;
    ix := [];
    if s == [] {
      ListsNone(name);
    } else {
      var n := |s| - 1;
      ix := MatchingSlots(s[..n], name);
      MatchingStep(s, name);
      ListsMore(ix, Matching(s[..n], name), s[..n], s[n], name);
      assert s[..n] + [s[n]] == s;
      if Callable(s[n], name) {
        AscendingMore(ix, Matching(s[..n], name), s[..n], name);
        ix := ix + [n];
      } else {
        assert Matching(s[..n], name) + [] == Matching(s[..n], name);
      }
    }
  }

  /** What `deliverMessage` calls: the matching handlers, or the default one when there are none. */
  function Calls(s: seq<Slot>, default: Option<nat>, name: seq<Byte>): seq<nat> {
    if Matching(s, name) != [] then Matching(s, name)
    else if default.Some? then [default.value]
    else []
  }

  /** A consistent table of filters that are well formed. */
  ghost predicate Proper(s: seq<Slot>) {
    Consistent(s) && forall i :: 0 <= i < |s| && s[i].filter.Some? ==> WellFormed(s[i].filter.value)
  }

  /**
   * `ix` are the slots whose filter is the topic name itself or matches it level by level, in ascending
   * order; their handlers are called in that order, or the default one when there is no such slot.
   */
  ghost predicate Delivers(ix: seq<nat>, calls: seq<nat>, s: seq<Slot>, default: Option<nat>, name: seq<Byte>) {
    && Ascending(ix) && (forall k :: 0 <= k < |ix| ==> ix[k] < |s|)
    && (forall i :: 0 <= i < |s| ==>
          (i in ix <==>
           && s[i].filter.Some?
           && (name == s[i].filter.value || LevelsMatch(Levels(s[i].filter.value), Levels(name)))))
    && (ix != [] ==> |calls| == |ix| && forall k :: 0 <= k < |ix| ==> s[ix[k]].fp == Some(calls[k]))
    && (ix == [] ==> calls == if default.Some? then [default.value] else [])
  }

  /** Delivery in the terms of the topic levels (section 4.7 of MQTT 3.1.1), for tables of well-formed filters. */
  lemma DeliveredExactly(s: seq<Slot>, default: Option<nat>, name: seq<Byte>) returns (ix: seq<nat>)
    ensures Proper(s) ==> Delivers(ix, Calls(s, default, name), s, default, name)
  {
    hide Matching, Levels, LevelsMatch, WellFormed, Scan;
    ix := MatchingSlots(s, name);
    if Proper(s) {
      forall i | 0 <= i < |s|
        ensures i in ix <==>
                && s[i].filter.Some?
                && (name == s[i].filter.value || LevelsMatch(Levels(s[i].filter.value), Levels(name)))
      {
        if s[i].filter.Some? {
          ScanIsLevelsMatch(s[i].filter.value, name);
        }
      }
    }
  }

  class HandlerTable {
    const slots: array<Slot>

    ghost predicate Valid()
      reads this, slots
    {
      Consistent(slots[..])
    }

    /** `MQTTClientInit` clears the filters of a table of any content. */
    constructor (fps: seq<Option<nat>>)
      ensures Valid() && fresh(slots) && slots.Length == |fps|
      ensures Table(slots[..]) == map[]
    {
      slots := new Slot[|fps|](i requires 0 <= i < |fps| => Slot(None, fps[i]));
      new;
      EmptyTable(slots[..]);
    }

    method Find(f: Option<seq<Byte>>) returns (i: nat)
      ensures i == IndexOf(slots[..], f)
    {
      i := 0;
      while i < slots.Length
        invariant i <= slots.Length
        invariant IndexOf(slots[..], f) == i + IndexOf(slots[i..], f)
      {
        if slots[i].filter == f {
          break;
        }
        assert slots[i..][1..] == slots[i + 1..];
        i := i + 1;
      }
    }

    /** `MQTTSetMessageHandler`: a bounded map's update, or its removal for a null handler. */
    method SetMessageHandler(f: seq<Byte>, h: Option<nat>) returns (rc: int)
      requires Valid()
      modifies slots
      ensures Valid() && slots[..] == SetSlots(old(slots[..]), f, h)
      ensures rc == SUCCESS || rc == FAILURE
      ensures h.Some? ==> (rc == SUCCESS <==> f in old(Table(slots[..])) || old(|Table(slots[..])|) < slots.Length)
      ensures h.Some? && rc == SUCCESS ==> Table(slots[..]) == old(Table(slots[..]))[f := h.value]
      ensures h.Some? && rc == FAILURE ==> slots[..] == old(slots[..])
      ensures h == None ==> (rc == SUCCESS <==> f in old(Table(slots[..])))
      ensures h == None ==> Table(slots[..]) == old(Table(slots[..])) - {f}
    {
      hide Table, IndexOf;
      ghost var s := slots[..];
      SetConsistent(s, f, h);
      if h.Some? {
        SetMeans(s, f, h.value);
      } else {
        RemoveMeans(s, f);
      }
      rc := FAILURE;
      var i := Find(Some(f));
      if i < slots.Length {
        if h == None {
          slots[i] := Slot(None, None);
        }
        rc := SUCCESS;
      }
      if h != None {
        if rc == FAILURE {
          i := Find(None);
          if i < slots.Length {
            rc := SUCCESS;
          }
        }
        if i < slots.Length {
          slots[i] := Slot(Some(f), h);
        }
      }
    }

    /** `MQTTCleanSession`. */
    method Clean()
      modifies slots
      ensures Valid() && Table(slots[..]) == map[]
      ensures slots[..] == Cleaned(old(slots[..]))
      ensures forall k :: 0 <= k < slots.Length ==> slots[k].filter == None && slots[k].fp == old(slots[k].fp)
    {
      var i := 0;
      while i < slots.Length
        invariant 0 <= i <= slots.Length
        invariant forall k :: 0 <= k < i ==> slots[k] == Slot(None, old(slots[k].fp))
        invariant forall k :: i <= k < slots.Length ==> slots[k] == old(slots[k])
      {
        slots[i] := slots[i].(filter := None);
        i := i + 1;
      }
      EmptyTable(slots[..]);
    }

    /** `deliverMessage`; `calls` lists the handlers invoked, in order, and `ix` the slots they come from. */
    method DeliverMessage(name: seq<Byte>, default: Option<nat>) returns (rc: int, calls: seq<nat>, ghost ix: seq<nat>)
      ensures calls == Calls(slots[..], default, name)
      ensures Proper(slots[..]) ==> Delivers(ix, calls, slots[..], default, name)
      ensures rc == if calls == [] then FAILURE else SUCCESS
    {
      hide Scan, Levels, LevelsMatch, WellFormed, Delivers, Proper;
      ix := DeliveredExactly(slots[..], default, name);
      rc, calls := FAILURE, [];
      var i := 0;
      while i < slots.Length
        invariant 0 <= i <= slots.Length
        invariant calls == Matching(slots[..i], name)
        invariant rc == if calls == [] then FAILURE else SUCCESS
      {
        assert slots[..i + 1][..i] == slots[..i];
        var slot := slots[i];
        if slot.filter.Some? {
          var hit := name == slot.filter.value;
          if !hit {
            hit := IsTopicMatched(slot.filter.value, name);
          }
          if hit && slot.fp.Some? {
            calls := calls + [slot.fp.value];
            rc := SUCCESS;
          }
        }
        i := i + 1;
      }
      assert slots[..i] == slots[..];
      if rc == FAILURE && default.Some? {
        calls, rc := [default.value], SUCCESS;
      }
    }
  }
}
