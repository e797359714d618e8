/** `MikroTikSSHDevice._parse_result`: the text table printed by
    `/interface/ethernet/poe/monitor <names> once` becomes one record of
    field name -> value per port. Once a port reports a `poe-out-status` other
    than `powered-on` it is "off": it takes no field from any later row, and the
    ports after it read their value from a position moved left by one for every
    off port before them. */
module TableParser {
  import opened Wrappers
  import opened Errors
  import opened Text
  import opened OrderedMaps

  /** A value in a port's dict: a table cell, or the bool stored under `cached`. */
  datatype Value = Cell(text: string) | Flag(flag: bool)

  /** Field name -> value for one port. */
  type Record = OrderedMap<Value>

  /** Port name -> record for every column of one table. */
  type Snapshot = OrderedMap<Record>

  const PoeOutStatus := "poe-out-status"
  const PoweredOn := "powered-on"

  /** Python's `s[1:]`. */
  function Tail<T>(s: seq<T>): (r: seq<T>)
    ensures |r| == if s == [] then 0 else |s| - 1
    ensures forall i :: 0 <= i < |r| ==> r[i] == s[i + 1]
  {
    if s == [] then [] else s[1..]
  }

  /** Python's `s[:-2]`. */
  function DropLastTwo<T>(s: seq<T>): (r: seq<T>)
    ensures |r| == if |s| <= 2 then 0 else |s| - 2
    ensures r == s[..|r|]
  {
    if |s| <= 2 then [] else s[..|s| - 2]
  }

  /** `re.split(r" +", row.rstrip())[1:]`: the tokens of one line after the
      first, which is the indent (empty) when the line starts with a space.
      No token is empty and none holds a space. */
  function RowTokens(line: string): (r: seq<string>)
    ensures forall t :: t in r ==> t != "" && ' ' !in t
    ensures var stripped := RStrip(line);
      Squeeze(stripped) == Word(stripped) + (if r == [] then "" else " " + Join(r, " "))
  {
    var stripped := RStrip(line);
    TailTokens(stripped);
    TailText(stripped);
    Tail(SplitSpaces(stripped))
  }

  /** The line, its runs of spaces squeezed, is its first word followed by
      the tokens, each after one space. */
  lemma TailText(s: string)
    ensures var r := Tail(SplitSpaces(s));
      Squeeze(s) == Word(s) + (if r == [] then "" else " " + Join(r, " "))
  {
    SplitSpacesJoin(s);
    SplitSpacesFirst(s);
    JoinAfterFirst(SplitSpaces(s), " ");
  }

  /** A join is its first piece followed by the join of the rest, after a separator. */
  lemma JoinAfterFirst(pieces: seq<string>, sep: string)
    requires |pieces| >= 1
    ensures Join(pieces, sep) == pieces[0] + (if Tail(pieces) == [] then "" else sep + Join(Tail(pieces), sep))
  {
    if |pieces| == 1 {
      assert pieces[0] + "" == pieces[0];
    } else {
      assert pieces[0] + sep + Join(pieces[1..], sep) == pieces[0] + (sep + Join(pieces[1..], sep));
    }
  }

  /** After the first piece, the pieces of a line with no trailing blank are tokens. */
  lemma TailTokens(s: string)
    requires s == "" || !IsSpace(s[|s| - 1])
    ensures forall t :: t in Tail(SplitSpaces(s)) ==> t != "" && ' ' !in t
  {
    var pieces := SplitSpaces(s);
    assert s == "" || s[|s| - 1] != ' ' by {
      if s != "" { assert IsSpace(' '); }
    }
    assert |pieces| >= 2 ==> s != "" && pieces[|pieces| - 1] != "";
    TokensAfterFirst(pieces);
  }

  /** Pieces without spaces, none empty after the first, leave tokens once
      the first is dropped. */
  lemma TokensAfterFirst(pieces: seq<string>)
    requires forall p :: p in pieces ==> ' ' !in p
    requires forall j :: 0 < j < |pieces| ==> pieces[j] != ""
    ensures forall t :: t in Tail(pieces) ==> t != "" && ' ' !in t
  {
    forall t | t in Tail(pieces)
      ensures t != "" && ' ' !in t
    {
      var k :| 0 <= k < |Tail(pieces)| && Tail(pieces)[k] == t;
      assert pieces[k + 1] == t && pieces[k + 1] in pieces;
    }
  }

  /** The list `s` of `_parse_result`: the output cut at every "\r\n", each line
      tokenised, the last two lines dropped. */
  function Tokenise(stdout: string): (rows: seq<seq<string>>)
    ensures var lines := Split(stdout, "\r\n");
      |rows| == (if |lines| <= 2 then 0 else |lines| - 2) &&
      forall i :: 0 <= i < |rows| ==> rows[i] == RowTokens(lines[i])
  {
    var lines := Split(stdout, "\r\n");
    DropLastTwo(seq(|lines|, i requires 0 <= i < |lines| => RowTokens(lines[i])))
  }

  /** `row[0][:-1]`: the row's label without its trailing colon. */
  function FieldName(tag: string): (r: string)
    ensures |r| == if tag == "" then 0 else |tag| - 1
    ensures r == tag[..|r|]
  {
    if tag == "" then "" else tag[..|tag| - 1]
  }

  /** How many of the first `n` columns are in `off`. */
  function OffCount(cols: seq<string>, off: set<string>, n: nat): (c: nat)
    requires n <= |cols|
    ensures c <= n
  {
    if n == 0 then 0 else OffCount(cols, off, n - 1) + (if cols[n - 1] in off then 1 else 0)
  }

  lemma OffCountNext(cols: seq<string>, off: set<string>, i: nat)
    requires i < |cols|
    ensures OffCount(cols, off, i + 1) == OffCount(cols, off, i) + (if cols[i] in off then 1 else 0)
  {
  }

  /** Between two cut points the count of off columns grows by at most the
      number of columns in between. */
  lemma {:induction false} OffCountBetween(cols: seq<string>, off: set<string>, i: nat, j: nat)
    requires i <= j <= |cols|
    ensures OffCount(cols, off, i) <= OffCount(cols, off, j) <= OffCount(cols, off, i) + (j - i)
    decreases j - i
  {
    if i < j {
      OffCountBetween(cols, off, i, j - 1);
    }
  }

  /** `i - column_decrimator` for column `i`: the number of columns before `i`
      that are still on. */
  function ValueIndex(cols: seq<string>, off: set<string>, i: nat): (k: nat)
    requires i <= |cols|
    ensures k <= i
  {
    i - OffCount(cols, off, i)
  }

  /** A column that is on reads a value position short of the number of
      columns that are on. */
  lemma ValueIndexFits(cols: seq<string>, off: set<string>)
    ensures forall i :: 0 <= i < |cols| && cols[i] !in off ==>
      ValueIndex(cols, off, i) < |cols| - OffCount(cols, off, |cols|)
  {
    forall i | 0 <= i < |cols| && cols[i] !in off
      ensures ValueIndex(cols, off, i) < |cols| - OffCount(cols, off, |cols|)
    {
      OffCountBetween(cols, off, i + 1, |cols|);
    }
  }

  /** Whether one data row goes through without an IndexError: it has a label,
      and a `poe-out-status` row has a value for every column, any other row a
      value for every column that is still on. */
  predicate RowFits(cols: seq<string>, off: set<string>, row: seq<string>) {
    |row| >= 1 &&
    if FieldName(row[0]) == PoeOutStatus then |cols| <= |row| - 1
    else |cols| - OffCount(cols, off, |cols|) <= |row| - 1
  }

  /** Entry `i` of the snapshot after one row: an off port is left alone, a
      port that is on gets the row's field set to its value. */
  function Updated(out: Snapshot, off: set<string>, name: string, vals: seq<string>, i: nat): (string, Record)
    requires i < |out.entries|
    requires out.entries[i].0 !in off ==> ValueIndex(out.Keys(), off, i) < |vals|
  {
    if out.entries[i].0 in off then out.entries[i]
    else (out.entries[i].0, out.entries[i].1.Put(name, Cell(vals[ValueIndex(out.Keys(), off, i)])))
  }

  /** The ports among the first `n` columns that one row turns off: on a
      `poe-out-status` row, those whose token, read at the column's own
      position, is not `powered-on`. */
  function TurnedOff(cols: seq<string>, name: string, vals: seq<string>, n: nat): set<string>
    requires n <= |cols| && (name == PoeOutStatus ==> n <= |vals|)
  {
    if n == 0 then {}
    else
      var last := if name == PoeOutStatus && vals[n - 1] != PoweredOn then {cols[n - 1]} else {};
      TurnedOff(cols, name, vals, n - 1) + last
  }

  /** With no repeated column, a column at or after `n` is not among the first
      `n` turned off. */
  lemma {:induction false} TurnedOffBefore(cols: seq<string>, name: string, vals: seq<string>, n: nat, i: nat)
    requires Distinct(cols) && n <= i < |cols| && (name == PoeOutStatus ==> n <= |vals|)
    ensures cols[i] !in TurnedOff(cols, name, vals, n)
  {
    if n > 0 {
      TurnedOffBefore(cols, name, vals, n - 1, i);
    }
  }

  /** With no repeated column, column `i` is turned off exactly when its own
      status token is not `powered-on`. */
  lemma {:induction false} TurnedOffAt(cols: seq<string>, name: string, vals: seq<string>, n: nat, i: nat)
    requires Distinct(cols) && i < n <= |cols| && (name == PoeOutStatus ==> n <= |vals|)
    ensures cols[i] in TurnedOff(cols, name, vals, n) <==> name == PoeOutStatus && vals[i] != PoweredOn
  {
    if i < n - 1 {
      TurnedOffAt(cols, name, vals, n - 1, i);
    } else {
      TurnedOffBefore(cols, name, vals, n - 1, i);
    }
  }

  /** One pass of the loop over the columns (lines 58-74) as a function of the
      snapshot and the off set before the row. */
  function RowStep(out: Snapshot, off: set<string>, row: seq<string>): Result<(Snapshot, set<string>), Error> {
    var cols := out.Keys();
    if !RowFits(cols, off, row) then Failure(IndexError)
    else
      var name, vals := FieldName(row[0]), row[1..];
      ValueIndexFits(cols, off);
      var entries := seq(|cols|, i requires 0 <= i < |cols| => Updated(out, off, name, vals, i));
      Success((OrderedMap(entries), off + TurnedOff(cols, name, vals, |cols|)))
  }

  /** A row fails exactly when it does not fit; otherwise the ports and their
      order stay and the off set only grows. */
  lemma RowStepKeepsPorts(out: Snapshot, off: set<string>, row: seq<string>)
    requires out.Valid()
    ensures RowStep(out, off, row).Failure? <==> !RowFits(out.Keys(), off, row)
    ensures RowStep(out, off, row).Success? ==>
      var (next, off') := RowStep(out, off, row).value;
      next.Valid() && next.Keys() == out.Keys() && off <= off'
  {
    if RowFits(out.Keys(), off, row) {
      assert RowStep(out, off, row).value.0.Keys() == out.Keys();
    }
  }

  /** What one row does to the port in column `i`: a port already off keeps its
      record; a port still on gets the row's field, read at its position among
      the ports still on, which is never right of its own column; the port turns
      off when the row is the `poe-out-status` row and its token, read at its own
      column, is not `powered-on` -- and it still takes that row's status, since
      the check follows the assignment. */
  lemma RowStepPort(out: Snapshot, off: set<string>, row: seq<string>, i: nat)
    requires out.Valid() && RowStep(out, off, row).Success? && i < |out.entries|
    ensures var (next, off') := RowStep(out, off, row).value;
      var cols, name, vals := out.Keys(), FieldName(row[0]), row[1..];
      (cols[i] in off ==> next.Get(cols[i]) == out.Get(cols[i])) &&
      (cols[i] !in off ==>
        ValueIndex(cols, off, i) <= i && ValueIndex(cols, off, i) < |vals| &&
        next.Get(cols[i]) == Some(out.Get(cols[i]).value.Put(name, Cell(vals[ValueIndex(cols, off, i)])))) &&
      (cols[i] in off' <==> cols[i] in off || (name == PoeOutStatus && vals[i] != PoweredOn))
  {
    var cols := out.Keys();
    var (next, off') := RowStep(out, off, row).value;
    ValueIndexFits(cols, off);
    assert next.entries[i] == Updated(out, off, FieldName(row[0]), row[1..], i);
    RowStepKeepsPorts(out, off, row);
    GetAt(next, i);
    GetAt(out, i);
    TurnedOffAt(cols, FieldName(row[0]), row[1..], |cols|, i);
  }

  /** The remaining iterations of the loop over the data rows. */
  function Run(out: Snapshot, off: set<string>, rows: seq<seq<string>>): Result<(Snapshot, set<string>), Error>
    decreases |rows|
  {
    if rows == [] then Success((out, off))
    else
      match RowStep(out, off, rows[0])
      case Failure(e) => Failure(e)
      case Success(st) => Run(st.0, st.1, rows[1..])
  }

  /** The result of `_parse_result` on rows already tokenised: the first row
      names the ports (after its label), each starting with an empty record. */
  function ParseRows(s: seq<seq<string>>): Result<Snapshot, Error> {
    if s == [] then Failure(IndexError)
    else
      match Run(FromKeys(Tail(s[0]), OrderedMap([])), {}, s[1..])
      case Failure(e) => Failure(e)
      case Success(st) => Success(st.0)
  }

  /** The result of `_parse_result` on the command's output. */
  function Parse(stdout: string): Result<Snapshot, Error> {
    ParseRows(Tokenise(stdout))
  }

  /** Over any number of rows: the ports and their order stay, the off set only
      grows, and a port that is off before the rows keeps its record through
      all of them. */
  lemma {:induction false} RunEffect(out: Snapshot, off: set<string>, rows: seq<seq<string>>)
    requires out.Valid()
    ensures Run(out, off, rows).Success? ==>
      var (last, off') := Run(out, off, rows).value;
      last.Valid() && last.Keys() == out.Keys() && off <= off' &&
      forall p :: p in off ==> last.Get(p) == out.Get(p)
    decreases |rows|
  {
    if rows != [] {
      RowStepKeepsPorts(out, off, rows[0]);
      if RowStep(out, off, rows[0]).Success? {
        var (next, off1) := RowStep(out, off, rows[0]).value;
        RunEffect(next, off1, rows[1..]);
        forall p | p in off ensures next.Get(p) == out.Get(p) {
          if p in out.Keys() {
            var i :| 0 <= i < |out.entries| && out.Keys()[i] == p;
            RowStepPort(out, off, rows[0], i);
          }
        }
      }
    }
  }

  /** The parsed table has one record per distinct header token, in header order. */
  lemma ParseKeys(stdout: string)
    ensures Parse(stdout).Success? ==>
      Parse(stdout).value.Valid() && Parse(stdout).value.Keys() == Dedup(Tail(Tokenise(stdout)[0]))
  {
    var s := Tokenise(stdout);
    if s != [] {
      RunEffect(FromKeys(Tail(s[0]), OrderedMap([])), {}, s[1..]);
    }
  }

  /** The state of the loop over the columns after the first `i` of them:
      those columns are updated, the rest untouched, and the off set holds the
      ports the row has turned off so far. */
  predicate ColumnsDone(out: Snapshot, off: set<string>, name: string, vals: seq<string>,
                        i: nat, entries: seq<(string, Record)>, offNow: set<string>)
  {
    var cols := out.Keys();
    i <= |cols| && |entries| == |cols| && (name == PoeOutStatus ==> i <= |vals|) &&
    (forall j :: 0 <= j < i && cols[j] !in off ==> ValueIndex(cols, off, j) < |vals|) &&
    (forall j :: 0 <= j < |cols| ==>
      entries[j] == if j < i then Updated(out, off, name, vals, j) else out.entries[j]) &&
    offNow == off + TurnedOff(cols, name, vals, i)
  }

  lemma ColumnStep(out: Snapshot, off: set<string>, name: string, vals: seq<string>, i: nat,
                   entries: seq<(string, Record)>, offNow: set<string>,
                   entries': seq<(string, Record)>, offNow': set<string>)
    requires ColumnsDone(out, off, name, vals, i, entries, offNow) && i < |out.entries|
    requires name == PoeOutStatus ==> i < |vals|
    requires out.entries[i].0 !in off ==> ValueIndex(out.Keys(), off, i) < |vals|
    requires |entries'| == |entries| && entries'[i] == Updated(out, off, name, vals, i)
    requires forall j :: 0 <= j < |entries| && j != i ==> entries'[j] == entries[j]
    requires offNow' == if name == PoeOutStatus && vals[i] != PoweredOn then offNow + {out.Keys()[i]} else offNow
    ensures ColumnsDone(out, off, name, vals, i + 1, entries', offNow')
  {
  }

  /** Once every column is done, the loop has computed the row's step. */
  lemma ColumnsAllDone(out: Snapshot, off: set<string>, row: seq<string>,
                       entries: seq<(string, Record)>, offNow: set<string>)
    requires |row| >= 1 && |row| - 1 >= |out.Keys()| - OffCount(out.Keys(), off, |out.Keys()|)
    requires ColumnsDone(out, off, FieldName(row[0]), row[1..], |out.Keys()|, entries, offNow)
    ensures RowStep(out, off, row) == Success((OrderedMap(entries), offNow))
  {
    var cols, name, vals := out.Keys(), FieldName(row[0]), row[1..];
    assert RowFits(cols, off, row);
    ValueIndexFits(cols, off);
    assert entries == seq(|cols|, j requires 0 <= j < |cols| => Updated(out, off, name, vals, j));
  }

  /** A column still on gets the row's value at position `i - decr`. */
  lemma UpdatedOn(out: Snapshot, off: set<string>, name: string, vals: seq<string>, i: nat, decr: nat)
    requires i < |out.entries| && out.entries[i].0 !in off
    requires decr == OffCount(out.Keys(), off, i) && i - decr < |vals|
    ensures Updated(out, off, name, vals, i) ==
      (out.entries[i].0, out.entries[i].1.Put(name, Cell(vals[i - decr])))
  {
    assert ValueIndex(out.Keys(), off, i) == i - decr;
  }

  lemma RowStepFails(out: Snapshot, off: set<string>, row: seq<string>)
    requires !RowFits(out.Keys(), off, row)
    ensures RowStep(out, off, row) == Failure(IndexError)
  {
  }

  /** The variables of the loop over the columns: `column_decrimator`, the
      records so far and the off set as it grows during the row. */
  datatype Pass = Pass(decr: nat, entries: seq<(string, Record)>, offNow: set<string>)

  /** Whether column `i` raises IndexError: a port still on reads past the
      row's end, or a `poe-out-status` row has no token at the column's own
      position. */
  predicate Overruns(out: Snapshot, name: string, vals: seq<string>, i: nat, st: Pass)
    requires i < |out.entries| && st.decr <= i
  {
    (out.entries[i].0 !in st.offNow && i - st.decr >= |vals|) || (name == PoeOutStatus && i >= |vals|)
  }

  /** One pass of the column loop's body (lines 63-69) on a column that does
      not overrun the row. */
  function Advance(out: Snapshot, name: string, vals: seq<string>, i: nat, st: Pass): (r: Pass)
    requires i < |out.entries| == |st.entries| && st.decr <= i && !Overruns(out, name, vals, i, st)
    ensures r.decr <= i + 1 && |r.entries| == |st.entries|
  {
    var port := out.entries[i].0;
    var entries := if port in st.offNow then st.entries
      else st.entries[i := (port, st.entries[i].1.Put(name, Cell(vals[i - st.decr])))];
    var decr := if port in st.offNow then st.decr + 1 else st.decr;
    var offNow := if name == PoeOutStatus && vals[i] != PoweredOn then st.offNow + {port} else st.offNow;
    Pass(decr, entries, offNow)
  }

  /** The loop over the columns of one row (lines 62-69), from column `i` on,
      as the loop runs it. */
  function ColumnPass(out: Snapshot, name: string, vals: seq<string>, i: nat, st: Pass): Result<(Snapshot, set<string>), Error>
    requires st.decr <= i <= |out.entries| == |st.entries|
    decreases |out.entries| - i
  {
    if i == |out.entries| then Success((OrderedMap(st.entries), st.offNow))
    else if Overruns(out, name, vals, i, st) then Failure(IndexError)
    else ColumnPass(out, name, vals, i + 1, Advance(out, name, vals, i, st))
  }

  /** The loop's variables after `i` columns agree with the row's step:
      `column_decrimator` counts the off ports so far. */
  predicate Tracks(out: Snapshot, off: set<string>, name: string, vals: seq<string>, i: nat, st: Pass) {
    ColumnsDone(out, off, name, vals, i, st.entries, st.offNow) &&
    st.decr == OffCount(out.Keys(), off, i) && i - st.decr <= |vals|
  }

  lemma OverrunIsShortRow(out: Snapshot, off: set<string>, row: seq<string>, i: nat, st: Pass)
    requires out.Valid() && |row| >= 1 && i < |out.entries|
    requires Tracks(out, off, FieldName(row[0]), row[1..], i, st)
    requires Overruns(out, FieldName(row[0]), row[1..], i, st)
    ensures !RowFits(out.Keys(), off, row)
  {
    var cols := out.Keys();
    assert cols[i] == out.entries[i].0;
    TurnedOffBefore(cols, FieldName(row[0]), row[1..], i, i);
    ValueIndexFits(cols, off);
  }

  lemma AdvanceTracks(out: Snapshot, off: set<string>, name: string, vals: seq<string>, i: nat, st: Pass)
    requires out.Valid() && i < |out.entries|
    requires Tracks(out, off, name, vals, i, st) && !Overruns(out, name, vals, i, st)
    ensures Tracks(out, off, name, vals, i + 1, Advance(out, name, vals, i, st))
  {
    var cols, port := out.Keys(), out.entries[i].0;
    assert cols[i] == port;
    TurnedOffBefore(cols, name, vals, i, i);
    OffCountNext(cols, off, i);
    var next := Advance(out, name, vals, i, st);
    if port in off {
      assert next.entries == st.entries;
      ColumnStep(out, off, name, vals, i, st.entries, st.offNow, next.entries, next.offNow);
    } else {
      UpdatedOn(out, off, name, vals, i, st.decr);
      assert next.entries == st.entries[i := Updated(out, off, name, vals, i)];
      ColumnStep(out, off, name, vals, i, st.entries, st.offNow, next.entries, next.offNow);
    }
  }

  /** Run from loop variables that have done the first `i` columns, the loop
      computes the row's step. It tests the off set as it grows during the
      row; as no port appears twice, that is the same as testing the set the
      row started with. */
  lemma {:induction false} ColumnPassIsRowStep(out: Snapshot, off: set<string>, row: seq<string>, i: nat, st: Pass)
    requires out.Valid() && |row| >= 1 && i <= |out.entries|
    requires Tracks(out, off, FieldName(row[0]), row[1..], i, st)
    ensures ColumnPass(out, FieldName(row[0]), row[1..], i, st) == RowStep(out, off, row)
    decreases |out.entries| - i
  {
    var name, vals := FieldName(row[0]), row[1..];
    if i == |out.entries| {
      ColumnPassEnds(out, off, row, st);
    } else if Overruns(out, name, vals, i, st) {
      ColumnPassOverruns(out, off, row, i, st);
    } else {
      AdvanceTracks(out, off, name, vals, i, st);
      ColumnPassIsRowStep(out, off, row, i + 1, Advance(out, name, vals, i, st));
    }
  }

  /** After the last column the loop's variables are the row's step. */
  lemma ColumnPassEnds(out: Snapshot, off: set<string>, row: seq<string>, st: Pass)
    requires out.Valid() && |row| >= 1 && |st.entries| == |out.entries| && st.decr <= |out.entries|
    requires Tracks(out, off, FieldName(row[0]), row[1..], |out.entries|, st)
    ensures ColumnPass(out, FieldName(row[0]), row[1..], |out.entries|, st) == RowStep(out, off, row)
  {
    ColumnsAllDone(out, off, row, st.entries, st.offNow);
  }

  /** A column that overruns the row is the IndexError of a row too short. */
  lemma ColumnPassOverruns(out: Snapshot, off: set<string>, row: seq<string>, i: nat, st: Pass)
    requires out.Valid() && |row| >= 1 && i < |out.entries| == |st.entries| && st.decr <= i
    requires Tracks(out, off, FieldName(row[0]), row[1..], i, st)
    requires Overruns(out, FieldName(row[0]), row[1..], i, st)
    ensures ColumnPass(out, FieldName(row[0]), row[1..], i, st) == RowStep(out, off, row)
  {
    OverrunIsShortRow(out, off, row, i, st);
    RowStepFails(out, off, row);
  }

  /** Lines 62-69: the loop over the columns of one row, which ends in the
      row's step or in the IndexError of a row too short for it. */
  method ApplyRow(out: Snapshot, off: set<string>, row: seq<string>) returns (r: Result<(Snapshot, set<string>), Error>)
    requires out.Valid()
    ensures r == RowStep(out, off, row)
  {
    if |row| == 0 {
      RowStepFails(out, off, row);
      return Failure(IndexError);
    }
    var name, vals := FieldName(row[0]), row[1..];
    var entries := out.entries;
    var offNow := off;
    var decr: nat := 0;
    var i: nat := 0;
    ColumnPassIsRowStep(out, off, row, 0, Pass(0, entries, offNow));
    while i < |entries|
      invariant decr <= i <= |entries| == |out.entries|
      invariant ColumnPass(out, name, vals, i, Pass(decr, entries, offNow)) == RowStep(out, off, row)
    {
      var step := ColumnBody(out, name, vals, i, decr, entries, offNow);
      if step.Failure? {
        return Failure(IndexError);
      }
      decr, entries, offNow := step.value.decr, step.value.entries, step.value.offNow;
      i := i + 1;
    }
    r := Success((OrderedMap(entries), offNow));
  }

  /** Lines 63-69: the body of the loop over the columns, for column `i`. */
  method ColumnBody(out: Snapshot, name: string, vals: seq<string>, i: nat,
                    decr: nat, entries: seq<(string, Record)>, offNow: set<string>) returns (r: Result<Pass, Error>)
    requires decr <= i < |out.entries| == |entries|
    ensures var st := Pass(decr, entries, offNow);
      r == if Overruns(out, name, vals, i, st) then Failure(IndexError) else Success(Advance(out, name, vals, i, st))
  {
    ghost var st := Pass(decr, entries, offNow);
    var port := out.entries[i].0;
    var decr', entries', offNow' := decr, entries, offNow;
    if port in offNow {
      decr' := decr + 1;
    } else {
      if i - decr >= |vals| {
        return Failure(IndexError);
      }
      entries' := entries[i := (port, entries[i].1.Put(name, Cell(vals[i - decr])))];
    }
    if name == PoeOutStatus {
      if i >= |vals| {
        return Failure(IndexError);
      }
      if vals[i] != PoweredOn {
        offNow' := offNow + {port};
      }
    }
    r := Success(Pass(decr', entries', offNow'));
  }

  /** `_parse_result`: the loop over the data rows of the tokenised output. */
  method ParseResult(stdout: string) returns (r: Result<Snapshot, Error>)
    ensures r == Parse(stdout)
  {
    var s := Tokenise(stdout);
    if |s| == 0 {
      return Failure(IndexError);
    }
    var out := FromKeys(Tail(s[0]), OrderedMap([]));
    var off: set<string> := {};
    var k := 1;
    while k < |s|
      invariant 1 <= k <= |s| && out.Valid()
      invariant Run(out, off, s[k..]) == Run(FromKeys(Tail(s[0]), OrderedMap([])), {}, s[1..])
    {
      RowStepKeepsPorts(out, off, s[k]);
      var step := ApplyRow(out, off, s[k]);
      assert s[k..][1..] == s[k + 1..];
      match step {
        case Failure(e) =>
          return Failure(e);
        case Success(st) =>
          out, off := st.0, st.1;
      }
      k := k + 1;
    }
    r := Success(out);
  }
}
