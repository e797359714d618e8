/** The configured interfaces of the switch and the groups of four in which
    they are polled (`MikroTikSSHDevice.__post_init__` and
    `_get_interfacegroup_containing`). */
module Registry {
  import opened Wrappers
  import opened Errors
  import opened Text
  import opened OrderedMaps

  /** The interface names polled by one remote command (a Python tuple). */
  type Group = seq<string>

  /** Interface name -> device id, in configuration order. */
  type Interfaces = OrderedMap<string>

  /** One `name,id` item of the interface spec; None when `item.split(",")` does
      not have exactly two parts, where `__setitem__(*parts)` raises TypeError. */
  function Pair(item: string): Option<(string, string)> {
    var parts := Split(item, ",");
    if |parts| == 2 then Some((parts[0], parts[1])) else None
  }

  /** An item is accepted exactly when it holds one comma, and then it is the
      name, the comma and the id. */
  lemma PairIsOneComma(item: string)
    ensures Pair(item).Some? <==> Count(item, ',') == 1
    ensures Pair(item).Some? ==>
      var p := Pair(item).value; item == p.0 + "," + p.1 && ',' !in p.0 && ',' !in p.1
  {
    var parts := Split(item, ",");
    JoinSplit(item, ",");
    SplitOneChar(item, ',');
    if |parts| == 2 {
      assert parts[1..] == [parts[1]];
    }
  }

  /** Every item of the spec is a `name,id` pair. */
  predicate WellFormed(items: seq<string>) {
    forall i :: 0 <= i < |items| ==> Pair(items[i]).Some?
  }

  /** The names of the items, in order, repeats included. */
  function Names(items: seq<string>): (ns: seq<string>)
    requires WellFormed(items)
  {
    seq(|items|, i requires 0 <= i < |items| => Pair(items[i]).value.0)
  }

  /** The dict that `self.interfaces.__setitem__(*i.split(","))` builds over
      `items`, or the TypeError of the first malformed item. */
  function Load(items: seq<string>): Result<Interfaces, Error> {
    if items == [] then Success(OrderedMap([]))
    else
      match Load(items[..|items| - 1])
      case Failure(e) => Failure(e)
      case Success(m) =>
        match Pair(items[|items| - 1])
        case None => Failure(InterfaceSpecError(items[|items| - 1]))
        case Some(p) => Success(m.Put(p.0, p.1))
  }

  /** Once a prefix of the items fails, the whole spec fails the same way. */
  lemma {:induction false} LoadFailureSticks(items: seq<string>, n: nat)
    requires n <= |items| && Load(items[..n]).Failure?
    ensures Load(items) == Load(items[..n])
    decreases |items| - n
  {
    if n < |items| {
      assert items[..n + 1][..n] == items[..n];
      LoadFailureSticks(items, n + 1);
    } else {
      assert items[..n] == items;
    }
  }

  /** Lines 11-13: the loop over the `;`-separated items of the spec. */
  method LoadInterfaces(spec: string) returns (r: Result<Interfaces, Error>)
    ensures r == Load(Split(spec, ";"))
  {
    var items := Split(spec, ";");
    var interfaces: Interfaces := OrderedMap([]);
    var i := 0;
    while i < |items|
      invariant 0 <= i <= |items|
      invariant Load(items[..i]) == Success(interfaces)
    {
      assert items[..i + 1][..i] == items[..i];
      match Pair(items[i]) {
        case None =>
          LoadFailureSticks(items, i + 1);
          return Failure(InterfaceSpecError(items[i]));
        case Some(p) =>
          interfaces := interfaces.Put(p.0, p.1);
      }
      i := i + 1;
    }
    assert items[..i] == items;
    r := Success(interfaces);
  }

  /** A malformed item makes the whole spec fail with that item's error, the
      first malformed one being the one reported. */
  lemma {:induction false} LoadFails(items: seq<string>, i: nat)
    requires i < |items| && Pair(items[i]).None?
    requires forall j :: 0 <= j < i ==> Pair(items[j]).Some?
    ensures Load(items) == Failure(InterfaceSpecError(items[i]))
  {
    LoadPrefixSucceeds(items[..i]);
    assert items[..i + 1][..i] == items[..i];
    LoadFailureSticks(items, i + 1);
  }

  /** The spec loads only when every item is a `name,id` pair. */
  lemma {:induction false} LoadIsWellFormed(items: seq<string>)
    requires Load(items).Success?
    ensures WellFormed(items)
  {
    if items != [] {
      var init := items[..|items| - 1];
      var last := items[|items| - 1];
      assert Load(items) == if Pair(last).None? then Failure(InterfaceSpecError(last)) else Success(Load(init).value.Put(Pair(last).value.0, Pair(last).value.1));
      LoadIsWellFormed(init);
      WellFormedLast(items);
    }
  }

  /** A specification that loads gives a well-formed ordered map. */
  lemma LoadedIsValid(items: seq<string>)
    requires Load(items).Success?
    ensures Load(items).value.Valid()
  {
    LoadIsWellFormed(items);
    LoadKeys(items);
  }

  lemma WellFormedLast(items: seq<string>)
    requires items != [] && WellFormed(items[..|items| - 1]) && Pair(items[|items| - 1]).Some?
    ensures WellFormed(items)
  {
    var n := |items| - 1;
    forall i | 0 <= i < n ensures Pair(items[i]).Some? {
      assert items[..n][i] == items[i];
    }
  }

  lemma {:induction false} LoadPrefixSucceeds(items: seq<string>)
    requires WellFormed(items)
    ensures Load(items).Success?
  {
    if items != [] {
      LoadPrefixSucceeds(items[..|items| - 1]);
    }
  }

  lemma NamesOfPrefix(items: seq<string>)
    requires WellFormed(items) && items != []
    ensures WellFormed(items[..|items| - 1])
    ensures Names(items) == Names(items[..|items| - 1]) + [Pair(items[|items| - 1]).value.0]
  {
  }

  /** A well-formed spec loads into a dict whose keys are its names in order of
      first appearance: a repeated name keeps its first position. */
  lemma {:induction false} LoadKeys(items: seq<string>)
    requires WellFormed(items)
    ensures Load(items).Success?
    ensures Load(items).value.Valid() && Load(items).value.Keys() == Dedup(Names(items))
  {
    if items != [] {
      var init := items[..|items| - 1];
      NamesOfPrefix(items);
      LoadKeys(init);
      var p := Pair(items[|items| - 1]).value;
      PutKeepsOrder(Load(init).value, Names(init), p.0, p.1);
    }
  }

  /** The ids of the items, in order. */
  function Ids(items: seq<string>): (ids: seq<string>)
    requires WellFormed(items)
  {
    seq(|items|, i requires 0 <= i < |items| => Pair(items[i]).value.1)
  }

  /** Each name holds the id of its last item: a repeated name takes the later id. */
  lemma {:induction false} LoadLastWins(items: seq<string>, i: nat)
    requires WellFormed(items) && i < |items|
    requires forall j :: i < j < |items| ==> Names(items)[j] != Names(items)[i]
    ensures Load(items).Success?
    ensures Load(items).value.Get(Names(items)[i]) == Some(Ids(items)[i])
  {
    var n := |items| - 1;
    LoadSnoc(items);
    if i < n {
      LaterNamesOfPrefix(items, items[..n], i);
      LoadLastWins(items[..n], i);
      LoadKeepsEarlier(items, i);
    }
  }

  /** The last item leaves the id of an earlier, different name alone. */
  lemma LoadKeepsEarlier(items: seq<string>, i: nat)
    requires WellFormed(items) && i < |items| - 1
    requires Names(items)[|items| - 1] != Names(items)[i]
    requires WellFormed(items[..|items| - 1]) && Load(items[..|items| - 1]).Success?
    requires Load(items[..|items| - 1]).value.Get(Names(items[..|items| - 1])[i]) == Some(Ids(items[..|items| - 1])[i])
    ensures Load(items).Success? && Load(items).value.Get(Names(items)[i]) == Some(Ids(items)[i])
  {
    LoadSnoc(items);
    var init := items[..|items| - 1];
    assert Names(items)[i] == Names(init)[i] && Ids(items)[i] == Ids(init)[i];
  }

  lemma LaterNamesOfPrefix(items: seq<string>, init: seq<string>, i: nat)
    requires WellFormed(items) && i < |items| - 1 && init == items[..|items| - 1]
    requires forall j :: i < j < |items| ==> Names(items)[j] != Names(items)[i]
    ensures WellFormed(init)
    ensures forall j :: i < j < |init| ==> Names(init)[j] != Names(init)[i]
  {
    NamesOfPrefix(items);
    forall j | i < j < |init| ensures Names(init)[j] != Names(init)[i] {
      assert Names(init)[j] == Names(items)[j] && Names(init)[i] == Names(items)[i];
    }
  }

  /** A well-formed spec loads its last item on top of the rest. */
  lemma LoadSnoc(items: seq<string>)
    requires WellFormed(items) && items != []
    ensures var n := |items| - 1;
      WellFormed(items[..n]) && Load(items[..n]).Success? &&
      Load(items) == Success(Load(items[..n]).value.Put(Names(items)[n], Ids(items)[n])) &&
      Names(items) == Names(items[..n]) + [Names(items)[n]] &&
      Ids(items) == Ids(items[..n]) + [Ids(items)[n]]
  {
    NamesOfPrefix(items);
    IdsOfPrefix(items);
    LoadPrefixSucceeds(items[..|items| - 1]);
  }

  lemma IdsOfPrefix(items: seq<string>)
    requires WellFormed(items) && items != []
    ensures WellFormed(items[..|items| - 1])
    ensures Ids(items) == Ids(items[..|items| - 1]) + [Ids(items)[|items| - 1]]
  {
  }

  /** The names of `groups`, one group after another. */
  function Flatten(groups: seq<Group>): seq<string> {
    if groups == [] then [] else groups[0] + Flatten(groups[1..])
  }

  /** `groups` cuts the first `4 * (|names| / 4)` names into consecutive runs of four. */
  predicate IsGrouping(groups: seq<Group>, names: seq<string>) {
    |groups| == |names| / 4 &&
    forall j :: 0 <= j < |groups| ==> 4 * j + 4 <= |names| && groups[j] == names[4 * j .. 4 * j + 4]
  }

  /** Lines 17-23: the names are appended to `temp`, which becomes a group and
      starts over at every fourth name; a final `temp` of fewer than four names
      is never appended. */
  method GroupInterfaces(names: seq<string>) returns (groups: seq<Group>)
    ensures IsGrouping(groups, names)
  {
    groups := [];
    var temp: Group := [];
    var i := 1;
    while i <= |names|
      invariant 1 <= i <= |names| + 1
      invariant |groups| == (i - 1) / 4
      invariant 4 * |groups| <= i - 1 && temp == names[4 * |groups| .. i - 1]
      invariant forall j :: 0 <= j < |groups| ==> 4 * j + 4 <= |names| && groups[j] == names[4 * j .. 4 * j + 4]
    {
      temp := temp + [names[i - 1]];
      if i % 4 == 0 {
        groups := groups + [temp];
        temp := [];
      }
      i := i + 1;
    }
  }

  /** The groups of four cut from `names`, the remainder left out. */
  function Grouped(names: seq<string>): seq<Group> {
    seq(|names| / 4, j requires 0 <= j < |names| / 4 => names[4 * j .. 4 * j + 4])
  }

  /** There is exactly one grouping of a list of names: the one `Grouped` cuts. */
  lemma GroupingIsUnique(groups: seq<Group>, names: seq<string>)
    ensures IsGrouping(groups, names) <==> groups == Grouped(names)
  {
    if IsGrouping(groups, names) {
      assert forall j :: 0 <= j < |groups| ==> groups[j] == Grouped(names)[j];
    }
    if groups == Grouped(names) {
      assert forall j :: 0 <= j < |groups| ==> 4 * j + 4 <= |names| && groups[j] == names[4 * j .. 4 * j + 4];
    }
  }

  /** The groups hold, in order, exactly the names before the remainder. */
  lemma {:induction false} GroupsCoverPrefix(groups: seq<Group>, names: seq<string>)
    requires IsGrouping(groups, names)
    ensures Flatten(groups) == names[..4 * |groups|]
    decreases |groups|
  {
    if groups != [] {
      var rest := names[4..];
      GroupingOfRest(groups, names);
      GroupsCoverPrefix(groups[1..], rest);
      assert names[..4 * |groups|] == names[..4] + rest[..4 * |groups[1..]|];
    }
  }

  /** Past the first group, the groups are the grouping of the names past the first four. */
  lemma GroupingOfRest(groups: seq<Group>, names: seq<string>)
    requires IsGrouping(groups, names) && groups != []
    ensures IsGrouping(groups[1..], names[4..])
  {
    var rest := names[4..];
    forall j | 0 <= j < |groups| - 1
      ensures 4 * j + 4 <= |rest| && groups[1..][j] == rest[4 * j .. 4 * j + 4]
    {
      assert groups[1..][j] == groups[j + 1] == names[4 * j + 4 .. 4 * j + 8];
    }
  }

  /** With distinct names, the name at position `k` is in group `j` exactly when
      `j == k / 4`; the last `|names| % 4` names are in no group. */
  lemma GroupOfName(groups: seq<Group>, names: seq<string>, k: nat, j: nat)
    requires IsGrouping(groups, names) && Distinct(names)
    requires k < |names| && j < |groups|
    ensures names[k] in groups[j] <==> k / 4 == j
  {
    assert k / 4 == j ==> groups[j][k - 4 * j] == names[k];
    if names[k] in groups[j] {
      var t :| 0 <= t < 4 && groups[j][t] == names[k];
      assert names[4 * j + t] == names[k];
    }
  }

  /** `_get_interfacegroup_containing`: the first group that holds `name`, or
      None when no group does. */
  function GroupContaining(groups: seq<Group>, name: string): (r: Option<Group>)
    ensures r.None? <==> forall j :: 0 <= j < |groups| ==> name !in groups[j]
    ensures r.Some? ==> (name in r.value &&
      exists j :: 0 <= j < |groups| && groups[j] == r.value && forall i :: 0 <= i < j ==> name !in groups[i])
  {
    if groups == [] then None
    else if name in groups[0] then Some(groups[0])
    else
      var r := GroupContaining(groups[1..], name);
      assert forall j :: 1 <= j < |groups| ==> groups[j] == groups[1..][j - 1];
      r
  }

  /** Looking up a configured name gives its group of four, or None for a name
      in the remainder; a name that is not configured is in no group. */
  lemma {:induction false} LookupOfName(groups: seq<Group>, names: seq<string>, name: string)
    requires IsGrouping(groups, names) && Distinct(names)
    ensures name !in names ==> GroupContaining(groups, name) == None
    ensures forall k :: 0 <= k < |names| && names[k] == name ==>
      GroupContaining(groups, name) == if k < 4 * |groups| then Some(groups[k / 4]) else None
  {
    if name !in names {
      forall j | 0 <= j < |groups| ensures name !in groups[j] {
        assert forall t :: 0 <= t < 4 ==> groups[j][t] == names[4 * j + t];
      }
    }
    forall k | 0 <= k < |names| && names[k] == name
      ensures GroupContaining(groups, name) == if k < 4 * |groups| then Some(groups[k / 4]) else None
    {
      forall j | 0 <= j < |groups| ensures name in groups[j] <==> k / 4 == j {
        GroupOfName(groups, names, k, j);
      }
      if k < 4 * |groups| {
        var r := GroupContaining(groups, name);
        assert name in groups[k / 4];
        var j :| 0 <= j < |groups| && groups[j] == r.value && forall i :: 0 <= i < j ==> name !in groups[i];
        assert j == k / 4;
      }
    }
  }
}
