/** The policy section of the CA: how the subject of a new certificate is put together. */
module Policy {
  import opened Bytes

  /** One attribute of a distinguished name; `value` stands for an ASN.1 string with its type. */
  datatype Entry = Entry(oid: nat, value: string)

  type Name = seq<Entry>

  /** One line of the policy: an attribute by name, and what is asked of it. */
  datatype Line = Line(name: string, value: string)

  /** `X509_NAME_get_index_by_OBJ`: the first entry of this type after `last`, or -1. */
  method IndexByObj(name: Name, oid: nat, last: int) returns (j: int)
    requires last < |name|
    ensures j == -1 || (last < j < |name| && 0 <= j && name[j].oid == oid)
    ensures forall k :: 0 <= k < |name| && last < k && (j == -1 || k < j) ==> name[k].oid != oid
  {
    j := if last < 0 then 0 else last + 1;
    while j < |name|
      invariant 0 <= j <= |name| && last < j
      invariant forall k :: 0 <= k < j && last < k ==> name[k].oid != oid
    {
      if name[j].oid == oid {
        return j;
      }
      j := j + 1;
    }
    j := -1;
  }

  /** The entries of one type, in order. */
  function Select(name: Name, oid: nat): Name {
    if name == [] then []
    else
      var n := |name| - 1;
      Select(name[..n], oid) + if name[n].oid == oid then [name[n]] else []
  }

  /** The entries of every other type, in order. */
  function Without(name: Name, oid: nat): Name {
    if name == [] then []
    else
      var n := |name| - 1;
      Without(name[..n], oid) + if name[n].oid == oid then [] else [name[n]]
  }

  ghost predicate Occurs(name: Name, oid: nat) {
    exists k :: 0 <= k < |name| && name[k].oid == oid
  }

  /** What one line demands of the request `name`, given the name of the CA. */
  ghost predicate LineOk(line: Line, oid: Option<nat>, name: Name, ca: Name) {
    && oid.Some?
    && line.value in {"optional", "supplied", "match"}
    && (line.value != "optional" ==> Occurs(name, oid.value))
    && (line.value == "match" ==> forall k :: 0 <= k < |name| && name[k].oid == oid.value ==> name[k] in ca)
  }

  ghost predicate PolicyOk(policy: seq<Line>, lookup: string -> Option<nat>, name: Name, ca: Name) {
    forall i :: 0 <= i < |policy| ==> LineOk(policy[i], lookup(policy[i].name), name, ca)
  }

  /** The subject: line by line, all the entries the request has of the line's type. */
  function SubjectOf(policy: seq<Line>, lookup: string -> Option<nat>, name: Name): Name {
    if policy == [] then []
    else
      var n := |policy| - 1;
      var oid := lookup(policy[n].name);
      SubjectOf(policy[..n], lookup, name) + if oid.Some? then Select(name, oid.value) else []
  }

  /** `ix` are the positions of the entries of a type (or of every other type), ascending, and `part` is the entries. */
  ghost predicate Picks(ix: seq<nat>, part: Name, name: Name, oid: nat, same: bool) {
    && |ix| == |part| && (forall k, l :: 0 <= k < l < |ix| ==> ix[k] < ix[l])
    && (forall k :: 0 <= k < |ix| ==> ix[k] < |name| && part[k] == name[ix[k]])
    && (forall i :: 0 <= i < |name| ==> (i in ix <==> (name[i].oid == oid <==> same)))
  }

  lemma PicksMore(ix: seq<nat>, part: Name, name: Name, oid: nat, same: bool, e: Entry)
    requires Picks(ix, part, name, oid, same)
    ensures if e.oid == oid <==> same then Picks(ix + [|name|], part + [e], name + [e], oid, same)
            else Picks(ix, part, name + [e], oid, same)
  {
    var more := name + [e];
    assert more[|name|] == e && forall i :: 0 <= i < |name| ==> more[i] == name[i];
    if e.oid == oid <==> same {
      assert (ix + [|name|])[|ix|] == |name|;
    } else {
      assert |name| !in ix;
    }
  }

  /** Selecting a type keeps the order of the request. */
  lemma {:induction false} SelectPicks(name: Name, oid: nat) returns (ix: seq<nat>)
    ensures Picks(ix, Select(name, oid), name, oid, true)
  {
    hide Picks;
    ix := [];
    if name == [] {
      PicksNone(oid, true);
    } else {
      var n := |name| - 1;
      ix := SelectPicks(name[..n], oid);
      PicksMore(ix, Select(name[..n], oid), name[..n], oid, true, name[n]);
      assert name[..n] + [name[n]] == name && Select(name[..n], oid) + [] == Select(name[..n], oid);
      if name[n].oid == oid {
        ix := ix + [n];
      }
    }
  }

  lemma PicksNone(oid: nat, same: bool)
    ensures Picks([], [], [], oid, same)
  {
  }

  /** So does dropping one. */
  lemma {:induction false} WithoutPicks(name: Name, oid: nat) returns (ix: seq<nat>)
    ensures Picks(ix, Without(name, oid), name, oid, false)
  {
    hide Picks;
    ix := [];
    if name == [] {
      PicksNone(oid, false);
    } else {
      var n := |name| - 1;
      ix := WithoutPicks(name[..n], oid);
      PicksMore(ix, Without(name[..n], oid), name[..n], oid, false, name[n]);
      assert name[..n] + [name[n]] == name && Without(name[..n], oid) + [] == Without(name[..n], oid);
      if name[n].oid != oid {
        ix := ix + [n];
      }
    }
  }

  /** An entry of the request admitted by a line of the policy, by their positions. */
  datatype Place = Place(line: nat, entry: nat)

  predicate Before(a: Place, b: Place) {
    a.line < b.line || (a.line == b.line && a.entry < b.entry)
  }

  predicate Admits(policy: seq<Line>, lookup: string -> Option<nat>, name: Name, at: Place) {
    at.line < |policy| && at.entry < |name| && lookup(policy[at.line].name) == Some(name[at.entry].oid)
  }

  /**
   * The subject consists of the entries at `src`: exactly the places where a line and an entry have the
   * same type, in the order of the lines and, for each line, in the order of the request.
   */
  ghost predicate Drawn(src: seq<Place>, subject: Name, policy: seq<Line>, lookup: string -> Option<nat>, name: Name) {
    && |src| == |subject| && (forall k, l :: 0 <= k < l < |src| ==> Before(src[k], src[l]))
    && (forall k :: 0 <= k < |src| ==> Admits(policy, lookup, name, src[k]) && subject[k] == name[src[k].entry])
    && (forall at :: Admits(policy, lookup, name, at) ==> at in src)
  }

  lemma DrawnMore(src: seq<Place>, subject: Name, policy: seq<Line>, lookup: string -> Option<nat>, name: Name,
                  line: Line, ix: seq<nat>, part: Name)
    requires Drawn(src, subject, policy, lookup, name)
    requires lookup(line.name).Some? ==> Picks(ix, part, name, lookup(line.name).value, true)
    requires lookup(line.name) == None ==> ix == [] && part == []
    ensures Drawn(src + PlacesOf(|policy|, ix), subject + part, policy + [line], lookup, name)
  {
    var more, longer, n := src + PlacesOf(|policy|, ix), policy + [line], |policy|;
    assert longer[n] == line && forall i :: 0 <= i < n ==> longer[i] == policy[i];
    forall at | Admits(longer, lookup, name, at) ensures at in more {
      if at.line < n {
        assert Admits(policy, lookup, name, at);
      } else {
        assert at.entry in ix;
        var k :| 0 <= k < |ix| && ix[k] == at.entry;
        assert more[|src| + k] == at;
      }
    }
    forall k | 0 <= k < |more|
      ensures Admits(longer, lookup, name, more[k]) && (subject + part)[k] == name[more[k].entry]
    {
      if k < |src| {
        assert Admits(policy, lookup, name, src[k]);
      } else {
        assert ix[k - |src|] in ix;
      }
    }
    forall k, l | 0 <= k < l < |more| ensures Before(more[k], more[l]) {
      if k < |src| <= l {
        assert Admits(policy, lookup, name, src[k]);
      }
    }
  }

  function PlacesOf(line: nat, ix: seq<nat>): seq<Place> {
    seq(|ix|, k requires 0 <= k < |ix| => Place(line, ix[k]))
  }

  /** The order of the subject is that of the policy, whatever the order of the request. */
  lemma {:induction false} SubjectDrawn(policy: seq<Line>, lookup: string -> Option<nat>, name: Name)
    returns (src: seq<Place>)
    ensures Drawn(src, SubjectOf(policy, lookup, name), policy, lookup, name)
  {
    hide Drawn, Picks, Select, PlacesOf;
    src := [];
    if policy == [] {
      DrawnNone(lookup, name);
    } else {
      var n := |policy| - 1;
      src := SubjectDrawn(policy[..n], lookup, name);
      var oid := lookup(policy[n].name);
      var ix := [];
      if oid.Some? {
        ix := SelectPicks(name, oid.value);
      }
      var part := if oid.Some? then Select(name, oid.value) else [];
      DrawnMore(src, SubjectOf(policy[..n], lookup, name), policy[..n], lookup, name, policy[n], ix, part);
      assert policy[..n] + [policy[n]] == policy;
      src := src + PlacesOf(n, ix);
    }
  }

  lemma DrawnNone(lookup: string -> Option<nat>, name: Name)
    ensures Drawn([], [], [], lookup, name)
  {
  }

  /** Skipping entries of other types does not change the selection. */
  lemma {:induction false} SelectSkip(name: Name, oid: nat, a: nat, b: nat)
    requires a <= b <= |name| && forall k :: a <= k < b ==> name[k].oid != oid
    ensures Select(name[..b], oid) == Select(name[..a], oid)
    decreases b - a
  {
    if a < b {
      SelectSkip(name, oid, a, b - 1);
      assert name[..b][..b - 1] == name[..b - 1];
    }
  }

  lemma SelectNext(name: Name, oid: nat, j: nat)
    requires j < |name| && name[j].oid == oid
    ensures Select(name[..j + 1], oid) == Select(name[..j], oid) + [name[j]]
  {
    assert name[..j + 1][..j] == name[..j];
  }

  /** The inner search of a "match" line: the entry of the CA with this type and value. */
  method FindMatch(ca: Name, oid: nat, value: string) returns (j: int)
    ensures j == -1 || (0 <= j < |ca| && ca[j] == Entry(oid, value))
    ensures j == -1 ==> Entry(oid, value) !in ca
  {
    var last2 := -1;
    while true
      invariant -1 <= last2 < |ca|
      invariant forall k :: 0 <= k <= last2 ==> ca[k] != Entry(oid, value)
      decreases |ca| - last2
    {
      j := IndexByObj(ca, oid, last2);
      if j < 0 {
        return -1;
      }
      last2 := j;
      if ca[j].value == value {
        return;
      }
    }
  }

  /** The body of the policy loop for one line: appends the entries it admits to the subject. */
  method ApplyLine(line: Line, oid: nat, name: Name, ca: Name, subject0: Name) returns (ok: bool, subject: Name)
    ensures ok <==> LineOk(line, Some(oid), name, ca)
    ensures ok ==> subject == subject0 + Select(name, oid)
  {
    ok, subject := true, subject0;
    var last := -1;
    while true
      invariant -1 <= last < |name| && ok
      invariant last >= 0 ==> name[last].oid == oid && line.value in {"optional", "supplied", "match"}
      invariant subject == subject0 + Select(name[..last + 1], oid)
      invariant line.value == "match" ==> forall k :: 0 <= k <= last && name[k].oid == oid ==> name[k] in ca
      decreases |name| - last
    {
      var j := IndexByObj(name, oid, last);
      SelectSkip(name, oid, last + 1, if j < 0 then |name| else j);
      assert name[..|name|] == name;
      if j < 0 && last != -1 {
        break;
      }
      var push := if j < 0 then None else Some(name[j]);
      if line.value == "optional" {
      } else if line.value == "supplied" {
        if j < 0 {
          return false, subject;
        }
      } else if line.value == "match" {
        if j < 0 {
          return false, subject;
        }
        var m := FindMatch(ca, oid, name[j].value);
        if m < 0 {
          assert name[j] == Entry(oid, name[j].value);
          return false, subject;
        }
        push := Some(ca[m]);
      } else {
        return false, subject;
      }
      if push == None {
        break;
      }
      SelectNext(name, oid, j);
      subject := subject + [push.value];
      last := j;
    }
  }

  /**
   * The policy loop of `do_body`: it succeeds exactly when every line is satisfied, and then the
   * subject is the one the policy describes.
   */
  method BuildSubject(policy: seq<Line>, lookup: string -> Option<nat>, name: Name, ca: Name)
    returns (ok: bool, subject: Name, ghost src: seq<Place>)
    ensures ok <==> PolicyOk(policy, lookup, name, ca)
    ensures ok ==> subject == SubjectOf(policy, lookup, name) && Drawn(src, subject, policy, lookup, name)
  {
    hide LineOk, Drawn;
    src := SubjectDrawn(policy, lookup, name);
    ok, subject := true, [];
    var i := 0;
    while i < |policy|
      invariant 0 <= i <= |policy|
      invariant PolicyOk(policy[..i], lookup, name, ca)
      invariant subject == SubjectOf(policy[..i], lookup, name)
    {
      var oid := lookup(policy[i].name);
      if oid == None {
        NoOid(policy[i], name, ca);
        ok := false;
        return;
      }
      assert policy[..i + 1][..i] == policy[..i];
      ok, subject := ApplyLine(policy[i], oid.value, name, ca, subject);
      if !ok {
        return;
      }
      i := i + 1;
    }
    assert policy[..i] == policy;
    ok := true;
  }

  lemma NoOid(line: Line, name: Name, ca: Name)
    ensures !LineOk(line, None, name, ca)
  {
  }

  /** `do_body` without e-mail in the subject: the entries of that type are deleted one by one. */
  method DropEmail(subject: Name, email: nat) returns (dn: Name, ghost ix: seq<nat>)
    ensures dn == Without(subject, email) && Picks(ix, dn, subject, email, false)
  {
    hide Picks;
    ix := WithoutPicks(subject, email);
    dn := subject;
    var i := -1;
    while true
      invariant -1 <= i < |dn|
      invariant Without(dn, email) == Without(subject, email)
      invariant forall k :: 0 <= k <= i ==> dn[k].oid != email
      decreases |dn| - i
    {
      i := IndexByObj(dn, email, i);
      if i < 0 {
        break;
      }
      WithoutDelete(dn, email, i);
      dn := dn[..i] + dn[i + 1..];
      i := i - 1;
    }
    WithoutNone(dn, email);
  }

  lemma {:induction false} WithoutDelete(name: Name, oid: nat, i: nat)
    requires i < |name| && name[i].oid == oid
    ensures Without(name[..i] + name[i + 1..], oid) == Without(name, oid)
  {
    var n := |name| - 1;
    var cut := name[..i] + name[i + 1..];
    if i == n {
      assert cut == name[..n];
    } else {
      WithoutDelete(name[..n], oid, i);
      assert name[..n][..i] + name[..n][i + 1..] == cut[..n - 1];
    }
  }

  lemma {:induction false} WithoutNone(name: Name, oid: nat)
    requires forall k :: 0 <= k < |name| ==> name[k].oid != oid
    ensures Without(name, oid) == name
  {
    if name != [] {
      var n := |name| - 1;
      var front := name[..n];
      assert forall k :: 0 <= k < n ==> front[k] == name[k];
      WithoutNone(front, oid);
      assert name == front + [name[n]];
    }
  }

  /** Selecting and dropping a type share the entries out between them, none lost and none twice. */
  lemma {:induction false} SelectAndWithout(name: Name, oid: nat)
    ensures multiset(Select(name, oid)) + multiset(Without(name, oid)) == multiset(name)
    ensures forall e :: e in Select(name, oid) <==> e in name && e.oid == oid
    ensures forall e :: e in Without(name, oid) <==> e in name && e.oid != oid
  {
    if name != [] {
      var n := |name| - 1;
      SelectAndWithout(name[..n], oid);
      assert name == name[..n] + [name[n]];
    }
  }
}
