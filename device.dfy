/** The switch as seen by the power monitor: its configured interfaces, their
    groups of four, the "being polled" flag and the last parsed table per group.
    The SSH call is not modelled: each poll takes the switch's reply as an
    argument, and a ghost log records the commands that would have been sent. */

module Device {
  import opened Wrappers
  import opened Errors
  import opened Text
  import opened OrderedMaps
  import opened Registry
  import opened TableParser

  /** What the remote `monitor` command gives back: its standard output, or a
      failure of the SSH transport (an exception out of `run`). */
  datatype Reply = Completed(stdout: string) | TransportFailed

  const MonitorPrefix := "/interface/ethernet/poe/monitor "
  const MonitorSuffix := " once"

  /** The key `get_interface_poe` writes into the record it returns. */
  const CachedKey := "cached"

  /** The command polling `group` runs on the switch: its names joined by commas. */
  function Command(group: Group): string {
    MonitorPrefix + Join(group, ",") + MonitorSuffix
  }

  /** The command names exactly the group's ports: splitting its argument on
      commas gives the group back, as long as no name holds a comma (which
      names taken from the interface list never do). */
  lemma CommandNamesGroup(group: Group)
    requires |group| >= 1
    requires forall j :: 0 <= j < |group| ==> ',' !in group[j]
    ensures var cmd := Command(group);
      |cmd| >= |MonitorPrefix| + |MonitorSuffix| &&
      cmd[..|MonitorPrefix|] == MonitorPrefix &&
      Split(cmd[|MonitorPrefix| .. |cmd| - |MonitorSuffix|], ",") == group
  {
    var cmd := Command(group);
    var arg := Join(group, ",");
    assert cmd[|MonitorPrefix| .. |cmd| - |MonitorSuffix|] == arg;
    SplitJoin(group, ',');
  }

  /** The commands startup sends: one per group, in order. */
  function Commands(groups: seq<Group>): (cmds: seq<string>)
    ensures |cmds| == |groups|
  {
    seq(|groups|, j requires 0 <= j < |groups| => Command(groups[j]))
  }

  lemma CommandsStep(groups: seq<Group>, j: nat)
    requires j < |groups|
    ensures Commands(groups[..j + 1]) == Commands(groups[..j]) + [Command(groups[j])]
  {
  }

  /** What comes of a reply once the call has returned: the exception that
      propagates with the "being polled" flag still set, or the parse that
      runs after the flag is cleared. */
  datatype Answer = Raised(error: Error) | Parsed(outcome: Result<Snapshot, Error>)

  /** A failed transport raises RemoteError; a completed call is parsed. */
  function Receive(reply: Reply): (a: Answer)
    ensures a.Raised? <==> reply.TransportFailed?
    ensures a.Raised? ==> a.error == RemoteError
  {
    match reply
    case TransportFailed => Raised(RemoteError)
    case Completed(stdout) => Parsed(Parse(stdout))
  }

  /** The snapshot an answer gives, or the error it raises. */
  function Outcome(a: Answer): Result<Snapshot, Error> {
    match a
    case Raised(e) => Failure(e)
    case Parsed(o) => o
  }

  /** A snapshot received from the switch has no port twice. */
  lemma ReceivedIsValid(reply: Reply)
    ensures Outcome(Receive(reply)).Success? ==> Outcome(Receive(reply)).value.Valid()
  {
    if reply.Completed? {
      ParseKeys(reply.stdout);
    }
  }

  /** The value `_poll_interface_group` returns, or the exception it raises:
      `",".join(None)` is a TypeError, a failed transport propagates, and
      otherwise the reply is parsed. */
  function PollOutcome(group: Option<Group>, reply: Reply): Result<Snapshot, Error> {
    match group
    case None => Failure(TypeError)
    case Some(_) => Outcome(Receive(reply))
  }

  /** `snapshot[name]["cached"] = cached`: the record of `name` with the marker
      written into it, and the snapshot holding that record; KeyError when the
      snapshot has no record for `name`. */
  function Mark(snapshot: Snapshot, name: string, cached: bool): (r: Result<(Snapshot, Record), Error>)
    ensures r.Failure? <==> name !in snapshot.Keys()
    ensures r.Failure? ==> r.error == KeyError
    ensures r.Success? ==>
      var (marked, rec) := r.value;
      rec.Get(CachedKey) == Some(Flag(cached)) &&
      (forall f :: f != CachedKey ==> rec.Get(f) == snapshot.Get(name).value.Get(f)) &&
      marked.Get(name) == Some(rec) &&
      (forall p :: p != name ==> marked.Get(p) == snapshot.Get(p)) &&
      marked.Keys() == snapshot.Keys() &&
      (snapshot.Valid() ==> marked.Valid())
  {
    match snapshot.Get(name)
    case None => Failure(KeyError)
    case Some(rec) =>
      var rec' := rec.Put(CachedKey, Flag(cached));
      Success((snapshot.Put(name, rec'), rec'))
  }

  /** What one call of `get_interface_poe` does to the device: its result, the
      new cache, the new flag and the commands it sends. */
  datatype ReadOutcome = ReadOutcome(
    result: Result<Record, Error>,
    cache: map<Group, Snapshot>,
    polling: bool,
    sent: seq<string>)

  /** The branch of `get_interface_poe` taken while a poll is in flight: the
      stored record, marked cached, with no command sent; KeyError when the
      name is in no group or its group has no snapshot. */
  function ReadCached(groups: seq<Group>, cache: map<Group, Snapshot>, name: string): ReadOutcome {
    var group := GroupContaining(groups, name);
    if group.None? || group.value !in cache then ReadOutcome(Failure(KeyError), cache, true, [])
    else
      match Mark(cache[group.value], name, true)
      case Failure(e) => ReadOutcome(Failure(e), cache, true, [])
      case Success(st) => ReadOutcome(Success(st.1), cache[group.value := st.0], true, [])
  }

  /** The branch of `get_interface_poe` taken otherwise: one poll of the
      name's group, then its new record marked fresh.  A name in no group
      makes the poll raise TypeError after it has set the flag; `answer` is
      what comes of the switch's reply. */
  function ReadFresh(groups: seq<Group>, cache: map<Group, Snapshot>, name: string, answer: Answer): ReadOutcome {
    match GroupContaining(groups, name)
    case None => ReadOutcome(Failure(TypeError), cache, true, [])
    case Some(g) =>
      match answer
      case Raised(e) => ReadOutcome(Failure(e), cache, true, [Command(g)])
      case Parsed(Failure(e)) => ReadOutcome(Failure(e), cache, false, [Command(g)])
      case Parsed(Success(snapshot)) =>
        var (result, cache') := MarkFresh(cache[g := snapshot], g, name, snapshot);
        ReadOutcome(result, cache', false, [Command(g)])
  }

  /** Line 84-85 once the poll of group `g` has stored `snapshot`: the record
      of `name` in it, marked fresh in the cache as well. */
  function MarkFresh(cache: map<Group, Snapshot>, g: Group, name: string, snapshot: Snapshot)
    : (Result<Record, Error>, map<Group, Snapshot>)
  {
    match Mark(snapshot, name, false)
    case Failure(e) => (Failure(e), cache)
    case Success(st) => (Success(st.1), cache[g := st.0])
  }

  /** `get_interface_poe(name)` from the state (`groups`, `cache`, `polling`),
      with `answer` what comes of the switch's reply should the call poll. */
  function ReadPoe(groups: seq<Group>, cache: map<Group, Snapshot>, polling: bool,
                   name: string, answer: Answer): ReadOutcome
  {
    if polling then ReadCached(groups, cache, name) else ReadFresh(groups, cache, name, answer)
  }

  /** While a poll is in flight a read sends nothing, leaves the flag set and
      marks what it returns as cached; otherwise it sends exactly the command
      of the name's group (nothing for a name in no group) and marks what it
      returns as fresh. */
  lemma ReadPolls(groups: seq<Group>, cache: map<Group, Snapshot>, polling: bool, name: string, answer: Answer)
    ensures var o := ReadPoe(groups, cache, polling, name, answer);
      (o.result.Success? ==> o.result.value.Get(CachedKey) == Some(Flag(polling))) &&
      (polling ==> o.sent == [] && o.polling) &&
      (!polling ==> o.sent == match GroupContaining(groups, name)
                              case Some(g) => [Command(g)]
                              case None => [])
  {
  }

  /** The flag after a read that found it clear: left set when the poll never
      returned (no group, a failed transport), cleared otherwise, even when the
      reply then fails to parse. */
  lemma ReadFlag(groups: seq<Group>, cache: map<Group, Snapshot>, name: string, answer: Answer)
    ensures ReadPoe(groups, cache, false, name, answer).polling <==>
      GroupContaining(groups, name).None? || answer.Raised?
  {
  }

  /** A successful read returns the record stored for the name in its group's
      snapshot, marker included; the snapshots of the other groups are
      untouched, and the only group that can gain a snapshot is the name's. */
  lemma ReadStores(groups: seq<Group>, cache: map<Group, Snapshot>, polling: bool, name: string, answer: Answer)
    ensures var o := ReadPoe(groups, cache, polling, name, answer);
      var group := GroupContaining(groups, name);
      (o.result.Success? ==>
         group.Some? && group.value in o.cache && o.cache[group.value].Get(name) == Some(o.result.value)) &&
      (forall g :: g in cache && Some(g) != group ==> g in o.cache && o.cache[g] == cache[g]) &&
      (forall g :: g in o.cache ==> g in cache || Some(g) == group)
  {
  }

  /** Which record a successful read returns: while a poll is in flight, the
      record already cached for the name; otherwise the name's record in the
      table just parsed, which replaces the group's snapshot with only that
      record marked. Either way every field but the marker is the source
      record's. */
  lemma ReadReturns(groups: seq<Group>, cache: map<Group, Snapshot>, polling: bool, name: string, answer: Answer)
    ensures var o := ReadPoe(groups, cache, polling, name, answer);
      var group := GroupContaining(groups, name);
      o.result.Success? ==>
        group.Some? &&
        var g := group.value;
        (polling ==>
           g in cache && name in cache[g].Keys() &&
           (forall f :: f != CachedKey ==> o.result.value.Get(f) == cache[g].Get(name).value.Get(f)) &&
           o.cache[g].Keys() == cache[g].Keys() &&
           (forall p :: p != name ==> o.cache[g].Get(p) == cache[g].Get(p))) &&
        (!polling ==>
           answer.Parsed? && answer.outcome.Success? &&
           var snapshot := answer.outcome.value;
           name in snapshot.Keys() &&
           (forall f :: f != CachedKey ==> o.result.value.Get(f) == snapshot.Get(name).value.Get(f)) &&
           o.cache[g].Keys() == snapshot.Keys() &&
           (forall p :: p != name ==> o.cache[g].Get(p) == snapshot.Get(p)))
  {
  }

  /** When a read succeeds: while a poll is in flight, exactly when the name's
      group has a snapshot holding the name; otherwise exactly when the reply
      parses to a table holding the name. A parsed table that lacks the name
      is still stored before the KeyError. */
  lemma ReadSucceeds(groups: seq<Group>, cache: map<Group, Snapshot>, polling: bool, name: string, answer: Answer)
    ensures var o := ReadPoe(groups, cache, polling, name, answer);
      var group := GroupContaining(groups, name);
      o.result.Success? <==>
        group.Some? &&
        if polling then group.value in cache && name in cache[group.value].Keys()
        else answer.Parsed? && answer.outcome.Success? && name in answer.outcome.value.Keys()
    ensures var o := ReadPoe(groups, cache, polling, name, answer);
      var group := GroupContaining(groups, name);
      group.Some? && !polling && answer.Parsed? && answer.outcome.Success? &&
      name !in answer.outcome.value.Keys() ==>
        o.result == Failure(KeyError) && o.cache == cache[group.value := answer.outcome.value]
  {
  }

  /** A snapshot is replaced only by a parsed reply: when the poll fails
      (transport or parse) the cache is left as it was. */
  lemma ReadPollFailure(groups: seq<Group>, cache: map<Group, Snapshot>, name: string, answer: Answer)
    requires GroupContaining(groups, name).Some? && Outcome(answer).Failure?
    ensures var o := ReadPoe(groups, cache, false, name, answer);
      o.cache == cache && o.result == Failure(Outcome(answer).error)
  {
  }

  /** Every snapshot in the cache is well formed. */
  predicate AllValid(cache: map<Group, Snapshot>) {
    forall g :: g in cache ==> cache[g].Valid()
  }

  /** Reads keep every snapshot well formed, given that what the switch sends
      parses to a well-formed snapshot (`ReceivedIsValid`). */
  lemma ReadKeepsValid(groups: seq<Group>, cache: map<Group, Snapshot>, polling: bool, name: string, answer: Answer)
    requires AllValid(cache)
    requires Outcome(answer).Success? ==> Outcome(answer).value.Valid()
    ensures AllValid(ReadPoe(groups, cache, polling, name, answer).cache)
  {
  }

  /** The cache holds a snapshot for every group and for nothing else. */
  predicate Covers(groups: seq<Group>, cache: map<Group, Snapshot>) {
    (forall g :: g in cache ==> g in groups) && (forall g :: g in groups ==> g in cache)
  }

  /** Reads never add a snapshot for anything but a group, nor drop one. */
  lemma ReadKeepsCover(groups: seq<Group>, cache: map<Group, Snapshot>, polling: bool, name: string, answer: Answer)
    requires Covers(groups, cache)
    ensures Covers(groups, ReadPoe(groups, cache, polling, name, answer).cache)
  {
    ReadStores(groups, cache, polling, name, answer);
  }

  /** A name that is not configured, or is among the remainder left out of the
      groups, cannot be read: KeyError while a poll is in flight, TypeError
      otherwise, with no command sent. */
  lemma {:induction false} UngroupedNameFails(groups: seq<Group>, names: seq<string>, cache: map<Group, Snapshot>,
                                              polling: bool, name: string, answer: Answer)
    requires IsGrouping(groups, names) && Distinct(names)
    requires name !in names[..4 * |groups|]
    ensures var o := ReadPoe(groups, cache, polling, name, answer);
      o.result == (if polling then Failure(KeyError) else Failure(TypeError)) &&
      o.sent == [] && o.cache == cache && o.polling
  {
    LookupOfName(groups, names, name);
  }

  /** The outcome of polling each group at start-up, given the switch's replies. */
  function Polls(startup: Group -> Reply): Group -> Result<Snapshot, Error> {
    g => PollOutcome(Some(g), startup(g))
  }

  /** The start-up polls of `__post_init__`, one group after another, `poll`
      giving each one's outcome: the cache they build, or the error of the
      first group whose poll fails. */
  function Prime(groups: seq<Group>, poll: Group -> Result<Snapshot, Error>): (r: Result<map<Group, Snapshot>, Error>)
    decreases |groups|
  {
    if groups == [] then Success(map[])
    else
      var init, last := groups[..|groups| - 1], groups[|groups| - 1];
      match Prime(init, poll)
      case Failure(e) => Failure(e)
      case Success(cache) =>
        match poll(last)
        case Failure(e) => Failure(e)
        case Success(snapshot) => Success(cache[last := snapshot])
  }

  /** Start-up succeeds exactly when every group's reply parses. */
  lemma {:induction false} PrimeSucceeds(groups: seq<Group>, poll: Group -> Result<Snapshot, Error>)
    ensures Prime(groups, poll).Success? <==>
      forall j :: 0 <= j < |groups| ==> poll(groups[j]).Success?
    decreases |groups|
  {
    if groups != [] {
      var n := |groups| - 1;
      PrimeSucceeds(groups[..n], poll);
      assert forall j :: 0 <= j < n ==> groups[..n][j] == groups[j];
    }
  }

  /** A successful start-up caches one snapshot per group, and nothing else:
      the parse of that group's reply. */
  lemma {:induction false} PrimeCache(groups: seq<Group>, poll: Group -> Result<Snapshot, Error>)
    requires Prime(groups, poll).Success?
    ensures var cache := Prime(groups, poll).value;
      (forall g :: g in cache ==> g in groups) && (forall g :: g in groups ==> g in cache) &&
      forall g :: g in cache ==> poll(g) == Success(cache[g])
    decreases |groups|
  {
    if groups != [] {
      var n := |groups| - 1;
      var init, last := groups[..n], groups[n];
      PrimeCache(init, poll);
      assert forall g :: g in groups ==> g in init || g == last;
      assert forall g :: g in init ==> g in groups;
    }
  }

  /** A failed start-up reports the error of the first group whose poll fails. */
  lemma {:induction false} PrimeFirstFailure(groups: seq<Group>, poll: Group -> Result<Snapshot, Error>)
    requires Prime(groups, poll).Failure?
    ensures exists j ::
      && 0 <= j < |groups|
      && poll(groups[j]) == Failure(Prime(groups, poll).error)
      && forall i :: 0 <= i < j ==> poll(groups[i]).Success?
    decreases |groups|
  {
    var n := |groups| - 1;
    var init, last := groups[..n], groups[n];
    assert forall i :: 0 <= i < n ==> init[i] == groups[i];
    if Prime(init, poll).Failure? {
      PrimeFirstFailure(init, poll);
      var j :| 0 <= j < n &&
        poll(init[j]) == Failure(Prime(init, poll).error) &&
        forall i :: 0 <= i < j ==> poll(init[i]).Success?;
      assert poll(groups[j]).Failure?;
    } else {
      PrimeSucceeds(init, poll);
      assert forall i :: 0 <= i < n ==> poll(groups[i]).Success?;
    }
  }

  /** The result of `__post_init__` on the interface list `spec`, with
      `startup` the switch's reply to each group's start-up poll. */
  function Startup(spec: string, startup: Group -> Reply): Result<(Interfaces, seq<Group>, map<Group, Snapshot>), Error> {
    match Load(Split(spec, ";"))
    case Failure(e) => Failure(e)
    case Success(interfaces) =>
      var groups := Grouped(interfaces.Keys());
      match Prime(groups, Polls(startup))
      case Failure(e) => Failure(e)
      case Success(cache) => Success((interfaces, groups, cache))
  }

  /** `MikroTikSSHDevice`. */
  class MikroTikSSHDevice {
    var interfaces: Interfaces
    var interfaceGroups: seq<Group>
    var isBeingPolled: bool
    var interfaceGroupsCache: map<Group, Snapshot>
    /** The commands sent to the switch so far. */
    ghost var commands: seq<string>

    /** The groups cut the configured names, and every snapshot is well formed. */
    predicate Valid()
      reads this
    {
      interfaces.Valid() &&
      IsGrouping(interfaceGroups, interfaces.Keys()) &&
      AllValid(interfaceGroupsCache)
    }

    /** Every group, and nothing else, has a snapshot. */
    predicate Primed()
      reads this
    {
      Covers(interfaceGroups, interfaceGroupsCache)
    }

    /** The fields as `__post_init__` starts assigning them. */
    constructor ()
      ensures interfaces == OrderedMap([]) && interfaceGroups == [] && !isBeingPolled
      ensures interfaceGroupsCache == map[] && commands == []
    {
      interfaces := OrderedMap([]);
      interfaceGroups := [];
      isBeingPolled := false;
      interfaceGroupsCache := map[];
      commands := [];
    }

    /** `__post_init__`: load the interface list, group it, then poll every
        group once, giving up at the first poll that fails. */
    static method Create(spec: string, startup: Group -> Reply) returns (r: Result<MikroTikSSHDevice, Error>)
      ensures r.Success? <==> Startup(spec, startup).Success?
      ensures r.Failure? ==> r.error == Startup(spec, startup).error
      ensures r.Success? ==>
        var d := r.value;
        fresh(d) && d.Valid() && d.Primed() && !d.isBeingPolled &&
        (d.interfaces, d.interfaceGroups, d.interfaceGroupsCache) == Startup(spec, startup).value &&
        d.commands == Commands(d.interfaceGroups)
    {
      var d := new MikroTikSSHDevice();
      var failed := d.Configure(spec);
      if failed.Some? {
        return Failure(failed.value);
      }
      failed := d.PollAll(startup, Polls(startup));
      if failed.Some? {
        return Failure(failed.value);
      }
      PrimeCache(d.interfaceGroups, Polls(startup));
      r := Success(d);
    }

    /** Lines 11-23: load the interface list and cut its names into groups. */
    method Configure(spec: string) returns (failed: Option<Error>)
      requires interfaceGroupsCache == map[] && !isBeingPolled && commands == []
      modifies this
      ensures interfaceGroupsCache == map[] && !isBeingPolled && commands == []
      ensures match Load(Split(spec, ";"))
        case Failure(e) => failed == Some(e)
        case Success(loaded) =>
          failed == None && interfaces == loaded && interfaceGroups == Grouped(loaded.Keys()) && Valid()
    {
      var loaded := LoadInterfaces(spec);
      if loaded.Failure? {
        return Some(loaded.error);
      }
      LoadedIsValid(Split(spec, ";"));
      assert loaded.value.Valid();
      var groups := GroupInterfaces(loaded.value.Keys());
      GroupingIsUnique(groups, loaded.value.Keys());
      interfaces, interfaceGroups := loaded.value, groups;
      failed := None;
    }

    /** Lines 27-28: poll every group once, in order, giving up at the first
        poll that fails. */
    method PollAll(startup: Group -> Reply, ghost poll: Group -> Result<Snapshot, Error>) returns (failed: Option<Error>)
      requires Valid() && !isBeingPolled && interfaceGroupsCache == map[] && commands == []
      requires poll == Polls(startup)
      modifies this
      ensures interfaces == old(interfaces) && interfaceGroups == old(interfaceGroups)
      ensures match Prime(interfaceGroups, poll)
        case Failure(e) => failed == Some(e)
        case Success(cache) =>
          failed == None && interfaceGroupsCache == cache && Valid() && !isBeingPolled &&
          commands == Commands(interfaceGroups)
    {
      var groups := interfaceGroups;
      var j := 0;
      while j < |groups|
        invariant 0 <= j <= |groups|
        invariant interfaces == old(interfaces) && interfaceGroups == groups
        invariant Valid() && !isBeingPolled
        invariant Prime(groups[..j], poll) == Success(interfaceGroupsCache)
        invariant commands == Commands(groups[..j])
      {
        var polled := PollNext(startup, j);
        if polled.Some? {
          PrimeFailureSticks(groups, j + 1, poll);
          return polled;
        }
        j := j + 1;
      }
      assert groups[..j] == groups;
      failed := None;
    }

    /** One round of the start-up loop: the poll of group `j`. */
    method PollNext(startup: Group -> Reply, j: nat) returns (failed: Option<Error>)
      requires Valid() && !isBeingPolled && j < |interfaceGroups|
      requires Prime(interfaceGroups[..j], Polls(startup)) == Success(interfaceGroupsCache)
      requires commands == Commands(interfaceGroups[..j])
      modifies this
      ensures interfaces == old(interfaces) && interfaceGroups == old(interfaceGroups)
      ensures failed.Some? ==> Prime(interfaceGroups[..j + 1], Polls(startup)) == Failure(failed.value)
      ensures failed.None? ==>
        Valid() && !isBeingPolled && commands == Commands(interfaceGroups[..j + 1]) &&
        Prime(interfaceGroups[..j + 1], Polls(startup)) == Success(interfaceGroupsCache)
    {
      var g := interfaceGroups[j];
      var polled := PollInterfaceGroup(Some(g), startup(g));
      PrimeStep(interfaceGroups, j, Polls(startup));
      assert Polls(startup)(g) == polled;
      CommandsStep(interfaceGroups, j);
      failed := if polled.Failure? then Some(polled.error) else None;
    }

    /** `_poll_interface_group`: the flag is set, the command sent; a transport
        failure leaves the flag set, otherwise it is cleared and the reply
        parsed; only a parsed reply replaces the group's snapshot. */
    method PollInterfaceGroup(group: Option<Group>, reply: Reply) returns (r: Result<Snapshot, Error>)
      modifies this
      ensures interfaces == old(interfaces) && interfaceGroups == old(interfaceGroups)
      ensures r == PollOutcome(group, reply)
      ensures match group
        case None =>
          isBeingPolled && commands == old(commands) && interfaceGroupsCache == old(interfaceGroupsCache)
        case Some(g) =>
          && commands == old(commands) + [Command(g)]
          && (isBeingPolled <==> reply.TransportFailed?)
          && interfaceGroupsCache == if r.Success? then old(interfaceGroupsCache)[g := r.value]
                                     else old(interfaceGroupsCache)
      ensures old(Valid()) ==> Valid()
    {
      isBeingPolled := true;
      if group.None? {
        return Failure(TypeError);
      }
      commands := commands + [Command(group.value)];
      if reply.TransportFailed? {
        return Failure(RemoteError);
      }
      r := StoreParsed(group.value, reply.stdout);
    }

    /** Lines 47-49, once the call has returned: clear the flag, parse the
        output and store the parsed table for `g`. */
    method StoreParsed(g: Group, stdout: string) returns (r: Result<Snapshot, Error>)
      modifies this
      ensures r == Parse(stdout) && !isBeingPolled
      ensures interfaceGroupsCache == if r.Success? then old(interfaceGroupsCache)[g := r.value]
                                      else old(interfaceGroupsCache)
      ensures interfaces == old(interfaces) && interfaceGroups == old(interfaceGroups)
      ensures commands == old(commands)
      ensures old(Valid()) ==> Valid()
    {
      isBeingPolled := false;
      r := ParseResult(stdout);
      ParseKeys(stdout);
      if r.Success? {
        interfaceGroupsCache := interfaceGroupsCache[g := r.value];
      }
    }

    /** `get_interface_poe`: serve the stored record marked cached while a poll
        is in flight, otherwise poll the name's group and mark the fresh
        record; either way the marker is written into the stored record. */
    method GetInterfacePoe(name: string, reply: Reply) returns (r: Result<Record, Error>)
      requires Valid()
      modifies this
      ensures var o := ReadPoe(old(interfaceGroups), old(interfaceGroupsCache), old(isBeingPolled), name, Receive(reply));
        r == o.result && interfaceGroupsCache == o.cache && isBeingPolled == o.polling &&
        commands == old(commands) + o.sent
      ensures interfaces == old(interfaces) && interfaceGroups == old(interfaceGroups)
      ensures Valid()
      ensures old(Primed()) ==> Primed()
    {
      ReceivedIsValid(reply);
      ReadKeepsValid(interfaceGroups, interfaceGroupsCache, isBeingPolled, name, Receive(reply));
      if Primed() {
        ReadKeepsCover(interfaceGroups, interfaceGroupsCache, isBeingPolled, name, Receive(reply));
      }
      if isBeingPolled {
        r := ServeCached(name);
      } else {
        r := ServePolled(name, reply);
      }
    }

    /** Lines 84-85: poll the name's group, then mark its new record fresh. */
    method ServePolled(name: string, reply: Reply) returns (r: Result<Record, Error>)
      modifies this
      ensures var o := ReadFresh(old(interfaceGroups), old(interfaceGroupsCache), name, Receive(reply));
        r == o.result && interfaceGroupsCache == o.cache && isBeingPolled == o.polling &&
        commands == old(commands) + o.sent
      ensures interfaces == old(interfaces) && interfaceGroups == old(interfaceGroups)
    {
      var group := GroupContaining(interfaceGroups, name);
      var polled := PollInterfaceGroup(group, reply);
      if polled.Failure? {
        return Failure(polled.error);
      }
      r := ServeFresh(group.value, name, polled.value);
    }

    /** Lines 81-82: the stored record of `name`, marked cached. */
    method ServeCached(name: string) returns (r: Result<Record, Error>)
      modifies this
      ensures var o := ReadCached(old(interfaceGroups), old(interfaceGroupsCache), name);
        r == o.result && interfaceGroupsCache == o.cache
      ensures interfaces == old(interfaces) && interfaceGroups == old(interfaceGroups)
      ensures isBeingPolled == old(isBeingPolled) && commands == old(commands)
    {
      ghost var o := ReadCached(interfaceGroups, interfaceGroupsCache, name);
      var group := GroupContaining(interfaceGroups, name);
      if group.None? || group.value !in interfaceGroupsCache {
        return Failure(KeyError);
      }
      var marked := Mark(interfaceGroupsCache[group.value], name, true);
      if marked.Failure? {
        return Failure(marked.error);
      }
      interfaceGroupsCache := interfaceGroupsCache[group.value := marked.value.0];
      r := Success(marked.value.1);
    }

    /** Lines 84-85 after the poll: the record of `name` in the snapshot the
        poll stored for `g`, marked fresh. */
    method ServeFresh(g: Group, name: string, snapshot: Snapshot) returns (r: Result<Record, Error>)
      modifies this
      ensures (r, interfaceGroupsCache) == MarkFresh(old(interfaceGroupsCache), g, name, snapshot)
      ensures interfaces == old(interfaces) && interfaceGroups == old(interfaceGroups)
      ensures isBeingPolled == old(isBeingPolled) && commands == old(commands)
    {
      var marked := Mark(snapshot, name, false);
      if marked.Failure? {
        return Failure(marked.error);
      }
      interfaceGroupsCache := interfaceGroupsCache[g := marked.value.0];
      r := Success(marked.value.1);
    }
  }

  /** One more start-up poll: the cache so far with the next group's snapshot. */
  lemma PrimeStep(groups: seq<Group>, j: nat, poll: Group -> Result<Snapshot, Error>)
    requires j < |groups|
    ensures Prime(groups[..j + 1], poll) ==
      match Prime(groups[..j], poll)
      case Failure(e) => Failure(e)
      case Success(cache) =>
        match poll(groups[j])
        case Failure(e) => Failure(e)
        case Success(snapshot) => Success(cache[groups[j] := snapshot])
  {
    assert groups[..j + 1][..j] == groups[..j];
  }

  /** Once a group's poll fails, start-up fails with that error whatever the
      later groups reply. */
  lemma {:induction false} PrimeFailureSticks(groups: seq<Group>, n: nat, poll: Group -> Result<Snapshot, Error>)
    requires n <= |groups| && Prime(groups[..n], poll).Failure?
    ensures Prime(groups, poll) == Prime(groups[..n], poll)
    decreases |groups| - n
  {
    if n < |groups| {
      assert groups[..n + 1][..n] == groups[..n];
      PrimeFailureSticks(groups, n + 1, poll);
    } else {
      assert groups[..n] == groups;
    }
  }
}
