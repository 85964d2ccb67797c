/**
 What `printFlags` and `dumpDefaultFlags` (flags.cc) list and how: the
 gflags records re-keyed into a name-ordered `std::map`, the visibility
 filter both listings apply, and the layout of a help line.
 */
module Listing {
  import opened Text
  import opened Gflags
  import opened Registry

  function Names(xs: seq<CommandLineFlagInfo>): set<string>
  {
    set i | 0 <= i < |xs| :: xs[i].name
  }

  /** Names strictly ascending: the iteration order of a `std::map` keyed by
      name, each key once. */
  ghost predicate StrictlySorted(xs: seq<CommandLineFlagInfo>)
  {
    forall i, j :: 0 <= i < j < |xs| ==> Less(xs[i].name, xs[j].name)
  }

  // ----- the std::map re-keying -----

  lemma SortedPrepend(x: CommandLineFlagInfo, xs: seq<CommandLineFlagInfo>)
    requires StrictlySorted(xs)
    requires xs != [] ==> Less(x.name, xs[0].name)
    ensures StrictlySorted([x] + xs)
  {
    forall j | 0 < j < |xs| ensures Less(x.name, xs[j].name) {
      LessTransitive(x.name, xs[0].name, xs[j].name);
    }
  }

  lemma PlaceHead(ordered: seq<CommandLineFlagInfo>, info: CommandLineFlagInfo, rest: seq<CommandLineFlagInfo>)
    requires StrictlySorted(ordered) && ordered != [] && Less(ordered[0].name, info.name)
    requires StrictlySorted(rest)
    requires forall k :: 0 <= k < |rest| ==> rest[k].name == info.name || rest[k] in ordered[1..]
    ensures StrictlySorted([ordered[0]] + rest)
  {
    if rest != [] && rest[0].name != info.name {
      var j :| 0 <= j < |ordered[1..]| && ordered[1..][j] == rest[0];
      assert ordered[j + 1] == rest[0];
    }
    SortedPrepend(ordered[0], rest);
  }

  /** `ordered_info[info.name] = &info` on a name-ordered map. */
  function Place(ordered: seq<CommandLineFlagInfo>, info: CommandLineFlagInfo): (r: seq<CommandLineFlagInfo>)
    requires StrictlySorted(ordered)
    ensures StrictlySorted(r)
    ensures Names(r) == Names(ordered) + {info.name}
    ensures forall k :: 0 <= k < |r| ==> if r[k].name == info.name then r[k] == info else r[k] in ordered
  {
    if ordered == [] then
      NamesOne(info);
      [info]
    else if info.name == ordered[0].name then
      SortedPrepend(info, ordered[1..]);
      assert ordered == [ordered[0]] + ordered[1..];
      NamesOne(info);
      NamesOne(ordered[0]);
      NamesConcat([info], ordered[1..]);
      NamesConcat([ordered[0]], ordered[1..]);
      SortedHeadIsSmallest(ordered);
      [info] + ordered[1..]
    else if Less(info.name, ordered[0].name) then
      SortedPrepend(info, ordered);
      NamesOne(info);
      NamesConcat([info], ordered);
      SortedHeadIsSmallest([info] + ordered);
      [info] + ordered
    else
      LessTotal(info.name, ordered[0].name);
      var rest := Place(ordered[1..], info);
      PlaceHead(ordered, info, rest);
      assert ordered == [ordered[0]] + ordered[1..];
      NamesOne(ordered[0]);
      NamesConcat([ordered[0]], rest);
      NamesConcat([ordered[0]], ordered[1..]);
      [ordered[0]] + rest
  }

  /** In a sorted sequence no later record has the name of the first. */
  lemma SortedHeadIsSmallest(xs: seq<CommandLineFlagInfo>)
    requires StrictlySorted(xs) && xs != []
    ensures forall k :: 0 < k < |xs| ==> xs[k].name != xs[0].name
  {
    forall k | 0 < k < |xs| ensures xs[k].name != xs[0].name {
      if xs[k].name == xs[0].name {
        LessIrreflexive(xs[0].name);
      }
    }
  }

  lemma NamesOne(x: CommandLineFlagInfo)
    ensures Names([x]) == {x.name}
  {
    assert [x][0].name == x.name;
  }

  lemma NamesConcat(xs: seq<CommandLineFlagInfo>, ys: seq<CommandLineFlagInfo>)
    ensures Names(xs + ys) == Names(xs) + Names(ys)
  {
    var zs := xs + ys;
    forall n | n in Names(zs) ensures n in Names(xs) + Names(ys) {
      var i :| 0 <= i < |zs| && zs[i].name == n;
      if i >= |xs| {
        assert ys[i - |xs|].name == n;
      }
    }
    forall n | n in Names(ys) ensures n in Names(zs) {
      var i :| 0 <= i < |ys| && ys[i].name == n;
      assert zs[|xs| + i].name == n;
    }
    forall n | n in Names(xs) ensures n in Names(zs) {
      var i :| 0 <= i < |xs| && xs[i].name == n;
      assert zs[i].name == n;
    }
  }

  /** The last record of `infos` that carries `name`. */
  function LastWith(infos: seq<CommandLineFlagInfo>, name: string): Option<CommandLineFlagInfo>
  {
    if infos == [] then None
    else if infos[|infos| - 1].name == name then Some(infos[|infos| - 1])
    else LastWith(infos[..|infos| - 1], name)
  }

  /** The map `ordered_info` built from the records `GetAllFlags` gave. */
  function Rekey(infos: seq<CommandLineFlagInfo>): (r: seq<CommandLineFlagInfo>)
    ensures StrictlySorted(r)
  {
    if infos == [] then []
    else Place(Rekey(infos[..|infos| - 1]), infos[|infos| - 1])
  }

  /** Re-keying one more record places it into the re-keyed prefix. */
  lemma RekeySnoc(infos: seq<CommandLineFlagInfo>, i: nat)
    requires i < |infos|
    ensures Rekey(infos[..i + 1]) == Place(Rekey(infos[..i]), infos[i])
  {
    assert infos[..i + 1][..i] == infos[..i];
  }

  /** Re-keying gives each name once, in ascending order, with the last
      record of that name. */
  lemma {:induction false} RekeyKeys(infos: seq<CommandLineFlagInfo>)
    ensures var r := Rekey(infos);
      && StrictlySorted(r)
      && Names(r) == Names(infos)
      && forall k :: 0 <= k < |r| ==> LastWith(infos, r[k].name) == Some(r[k])
  {
    if infos != [] {
      var front := infos[..|infos| - 1];
      RekeyKeys(front);
      RekeyStep(infos, Rekey(front), Rekey(infos));
    }
  }

  /** Placing the last record into the re-keyed front keeps, for every name,
      the last record that carries it. */
  lemma RekeyStep(infos: seq<CommandLineFlagInfo>, prev: seq<CommandLineFlagInfo>, r: seq<CommandLineFlagInfo>)
    requires infos != []
    requires var front := infos[..|infos| - 1];
      Names(prev) == Names(front) && forall k :: 0 <= k < |prev| ==> LastWith(front, prev[k].name) == Some(prev[k])
    requires var last := infos[|infos| - 1];
      Names(r) == Names(prev) + {last.name} &&
      forall k :: 0 <= k < |r| ==> if r[k].name == last.name then r[k] == last else r[k] in prev
    ensures Names(r) == Names(infos)
    ensures forall k :: 0 <= k < |r| ==> LastWith(infos, r[k].name) == Some(r[k])
  {
    var front, last := infos[..|infos| - 1], infos[|infos| - 1];
    assert infos == front + [last];
    NamesConcat(front, [last]);
    NamesOne(last);
    forall k | 0 <= k < |r| ensures LastWith(infos, r[k].name) == Some(r[k]) {
      if r[k].name != last.name {
        var j :| 0 <= j < |prev| && prev[j] == r[k];
      }
    }
  }

  lemma {:induction false} LastWithIn(infos: seq<CommandLineFlagInfo>, name: string)
    requires LastWith(infos, name).Some?
    ensures LastWith(infos, name).value in infos && LastWith(infos, name).value.name == name
  {
    if infos[|infos| - 1].name != name {
      LastWithIn(infos[..|infos| - 1], name);
    }
  }

  // ----- the visibility filter -----

  /** The tests that make both listings skip a name, negated: a declared flag
      is listed only for exactly its own shell, external and cli bits and
      when it is not hidden; a name that is only an alias is listed only
      when the alias is external and the caller asked for external flags;
      any other name is never listed. */
  function Passes(s: State, name: string, shell: bool, external: bool, cli: bool): (r: bool)
    ensures r ==> name in s.details || name in s.aliases
    ensures name in s.details ==>
      (r <==> var d := s.details[name]; d.shell == shell && d.external == external && d.cli == cli && !d.hidden)
    ensures name !in s.details && name in s.aliases ==> (r <==> s.aliases[name].external && external)
  {
    if name in s.details then
      var detail := s.details[name];
      !((shell && !detail.shell) || (!shell && detail.shell) || (external && !detail.external) ||
        (!external && detail.external) || (cli && !detail.cli) || (!cli && detail.cli) || detail.hidden)
    else if name in s.aliases then
      var alias := s.aliases[name];
      !(!alias.external || !external)
    else
      false
  }

  /** The records of `xs` that pass the filter, in the order of `xs`. */
  function Emit(s: State, xs: seq<CommandLineFlagInfo>, shell: bool, external: bool, cli: bool): (r: seq<CommandLineFlagInfo>)
    ensures |r| <= |xs|
  {
    if xs == [] then []
    else
      var last := xs[|xs| - 1];
      Emit(s, xs[..|xs| - 1], shell, external, cli) + if Passes(s, last.name, shell, external, cli) then [last] else []
  }

  /** One more record either passes the filter and is appended, or not. */
  lemma EmitSnoc(s: State, xs: seq<CommandLineFlagInfo>, k: nat, shell: bool, external: bool, cli: bool)
    requires k < |xs|
    ensures Passes(s, xs[k].name, shell, external, cli) ==>
      Emit(s, xs[..k + 1], shell, external, cli) == Emit(s, xs[..k], shell, external, cli) + [xs[k]]
    ensures !Passes(s, xs[k].name, shell, external, cli) ==>
      Emit(s, xs[..k + 1], shell, external, cli) == Emit(s, xs[..k], shell, external, cli)
  {
    assert xs[..k + 1][..k] == xs[..k];
    assert Emit(s, xs[..k], shell, external, cli) + [] == Emit(s, xs[..k], shell, external, cli);
  }

  /** Every record the filter keeps is a record of `xs` that passes it. */
  lemma {:induction false} EmitKept(s: State, xs: seq<CommandLineFlagInfo>, shell: bool, external: bool, cli: bool)
    ensures var r := Emit(s, xs, shell, external, cli);
      forall k :: 0 <= k < |r| ==> r[k] in xs && Passes(s, r[k].name, shell, external, cli)
  {
    if xs != [] {
      var front := xs[..|xs| - 1];
      var prev := Emit(s, front, shell, external, cli);
      EmitKept(s, front, shell, external, cli);
      assert var r := Emit(s, front, shell, external, cli);
        forall k :: 0 <= k < |r| ==> r[k] in front && Passes(s, r[k].name, shell, external, cli);
      forall k | 0 <= k < |prev| ensures prev[k] in xs {
        var j :| 0 <= j < |front| && front[j] == prev[k];
        assert xs[j] == front[j];
      }
    }
  }

  lemma EmitKeptAt(s: State, xs: seq<CommandLineFlagInfo>, k: nat, shell: bool, external: bool, cli: bool)
    requires k < |Emit(s, xs, shell, external, cli)|
    ensures var r := Emit(s, xs, shell, external, cli);
      exists j :: 0 <= j < |xs| && xs[j] == r[k] && Passes(s, r[k].name, shell, external, cli)
  {
    EmitKept(s, xs, shell, external, cli);
    var r := Emit(s, xs, shell, external, cli);
    assert r[k] in xs;
  }

  /** Every record of `xs` that passes the filter is kept. */
  lemma {:induction false} EmitComplete(s: State, xs: seq<CommandLineFlagInfo>, shell: bool, external: bool, cli: bool)
    ensures var r := Emit(s, xs, shell, external, cli);
      forall k :: 0 <= k < |xs| && Passes(s, xs[k].name, shell, external, cli) ==> xs[k] in r
  {
    if xs != [] {
      var front := xs[..|xs| - 1];
      EmitComplete(s, front, shell, external, cli);
      assert forall k :: 0 <= k < |front| ==> xs[k] == front[k];
    }
  }

  /** The filter keeps the order of `xs`: from a name-ordered sequence it
      gives a name-ordered sequence. */
  lemma {:induction false} EmitSorted(s: State, xs: seq<CommandLineFlagInfo>, shell: bool, external: bool, cli: bool)
    requires StrictlySorted(xs)
    ensures StrictlySorted(Emit(s, xs, shell, external, cli))
  {
    if xs != [] {
      var front, last := xs[..|xs| - 1], xs[|xs| - 1];
      var prev := Emit(s, front, shell, external, cli);
      EmitSorted(s, front, shell, external, cli);
      if Passes(s, last.name, shell, external, cli) {
        forall k | 0 <= k < |prev| ensures Less(prev[k].name, last.name) {
          EmitKeptAt(s, front, k, shell, external, cli);
          var j :| 0 <= j < |front| && front[j] == prev[k];
          assert xs[j] == front[j];
        }
      }
    }
  }

  /** What both listings visit: the re-keyed records that pass the filter. */
  function Emitted(s: State, shell: bool, external: bool, cli: bool): (r: seq<CommandLineFlagInfo>)
    requires s.store.Valid()
    ensures StrictlySorted(r)
  {
    var ordered := Rekey(s.store.GetAllFlags());
    EmitSorted(s, ordered, shell, external, cli);
    Emit(s, ordered, shell, external, cli)
  }

  /** Both listings visit every name gflags knows that passes the filter,
      each once, in ascending order, with gflags' record for it. */
  lemma EmittedListing(s: State, shell: bool, external: bool, cli: bool)
    requires s.store.Valid()
    ensures var r := Emitted(s, shell, external, cli);
      && StrictlySorted(r)
      && (forall n :: n in Names(r) <==> n in s.store.entries && Passes(s, n, shell, external, cli))
      && (forall k :: 0 <= k < |r| ==> r[k].name in s.store.entries && r[k] == s.store.InfoOf(r[k].name))
  {
    var ordered := Rekey(s.store.GetAllFlags());
    RekeyedStore(s.store);
    EmitFromStore(s, ordered, shell, external, cli);
    EmitSorted(s, ordered, shell, external, cli);
  }

  /** A hidden declared flag is listed by neither listing, whatever the
      caller asks for; a name that is neither declared nor an alias is not
      listed either. */
  lemma HiddenNeverListed(s: State, name: string, shell: bool, external: bool, cli: bool)
    requires s.store.Valid()
    requires name in s.details ==> s.details[name].hidden
    requires name !in s.details ==> name !in s.aliases
    ensures name !in Names(Emitted(s, shell, external, cli))
  {
    EmittedListing(s, shell, external, cli);
  }

  lemma EmitFromStore(s: State, ordered: seq<CommandLineFlagInfo>, shell: bool, external: bool, cli: bool)
    requires Names(ordered) == s.store.entries.Keys
    requires forall k :: 0 <= k < |ordered| ==> ordered[k].name in s.store.entries && ordered[k] == s.store.InfoOf(ordered[k].name)
    ensures var r := Emit(s, ordered, shell, external, cli);
      && (forall n :: n in Names(r) <==> n in s.store.entries && Passes(s, n, shell, external, cli))
      && (forall k :: 0 <= k < |r| ==> r[k].name in s.store.entries && r[k] == s.store.InfoOf(r[k].name))
  {
    EmitStoreNames(s, ordered, shell, external, cli);
    EmitStoreRecords(s, ordered, shell, external, cli);
  }

  lemma EmitStoreNames(s: State, ordered: seq<CommandLineFlagInfo>, shell: bool, external: bool, cli: bool)
    requires Names(ordered) == s.store.entries.Keys
    ensures var r := Emit(s, ordered, shell, external, cli);
      forall n :: n in Names(r) <==> n in s.store.entries && Passes(s, n, shell, external, cli)
  {
    var r := Emit(s, ordered, shell, external, cli);
    EmitComplete(s, ordered, shell, external, cli);
    forall n | n in s.store.entries && Passes(s, n, shell, external, cli) ensures n in Names(r) {
      var k :| 0 <= k < |ordered| && ordered[k].name == n;
      var j :| 0 <= j < |r| && r[j] == ordered[k];
    }
    forall n | n in Names(r) ensures n in s.store.entries && Passes(s, n, shell, external, cli) {
      var k :| 0 <= k < |r| && r[k].name == n;
      EmitKeptAt(s, ordered, k, shell, external, cli);
      var j :| 0 <= j < |ordered| && ordered[j] == r[k];
      assert n in Names(ordered);
    }
  }

  lemma EmitStoreRecords(s: State, ordered: seq<CommandLineFlagInfo>, shell: bool, external: bool, cli: bool)
    requires forall k :: 0 <= k < |ordered| ==> ordered[k].name in s.store.entries && ordered[k] == s.store.InfoOf(ordered[k].name)
    ensures var r := Emit(s, ordered, shell, external, cli);
      forall k :: 0 <= k < |r| ==> r[k].name in s.store.entries && r[k] == s.store.InfoOf(r[k].name)
  {
    var r := Emit(s, ordered, shell, external, cli);
    forall k | 0 <= k < |r| ensures r[k].name in s.store.entries && r[k] == s.store.InfoOf(r[k].name) {
      EmitKeptAt(s, ordered, k, shell, external, cli);
      var j :| 0 <= j < |ordered| && ordered[j] == r[k];
    }
  }

  /** Re-keying what `GetAllFlags` reports gives every known name once,
      with the store's record for it. */
  lemma RekeyedStore(store: Store)
    requires store.Valid()
    ensures var ordered := Rekey(store.GetAllFlags());
      && Names(ordered) == store.entries.Keys
      && forall k :: 0 <= k < |ordered| ==> ordered[k].name in store.entries && ordered[k] == store.InfoOf(ordered[k].name)
  {
    var infos := store.GetAllFlags();
    var ordered := Rekey(infos);
    RekeyKeys(infos);
    forall n | n in store.entries ensures n in Names(infos) {
      var i :| 0 <= i < |store.listing| && store.listing[i] == n;
      assert infos[i].name == n;
    }
    forall k | 0 <= k < |ordered| ensures ordered[k].name in store.entries && ordered[k] == store.InfoOf(ordered[k].name) {
      LastWithIn(infos, ordered[k].name);
    }
  }

  // ----- line layout -----

  function FlagfileOption(): string { "    --flagfile PATH" }
  function FlagfileHelp(): string { "  Line-delimited file of additional flags" }

  /** The `--flagfile` header for a column width of `width` (the longest
      declared name plus 6). */
  function FlagfileLine(width: int): string
    requires width >= 13
  {
    FlagfileOption() + Spaces(width - 8 - 5) + FlagfileHelp()
  }

  /** The lines `printFlags` writes before the help lines: the `--flagfile`
      header for the command-line listing, nothing otherwise. */
  function Header(shell: bool, cli: bool, width: int): seq<string>
    requires !shell && cli ==> width >= 13
  {
    if !shell && cli then [FlagfileLine(width)] else []
  }

  /** The line `dumpDefaultFlags` writes for one name. */
  function DumpLine(name: string, defaultValue: string): string
  {
    name + "=" + defaultValue
  }

  /** The lines `dumpDefaultFlags` writes for the records `listed`. */
  function DumpLines(listed: seq<CommandLineFlagInfo>): (r: seq<string>)
    ensures |r| == |listed|
  {
    if listed == [] then []
    else
      var last := listed[|listed| - 1];
      DumpLines(listed[..|listed| - 1]) + [DumpLine(last.name, last.defaultValue)]
  }

  /** One more record appends its `name=default` line. */
  lemma DumpLinesSnoc(listed: seq<CommandLineFlagInfo>, info: CommandLineFlagInfo)
    ensures DumpLines(listed + [info]) == DumpLines(listed) + [DumpLine(info.name, info.defaultValue)]
  {
    assert (listed + [info])[..|listed|] == listed;
  }

  /** Line `k` is the `name=default` line of record `k`. */
  lemma {:induction false} DumpLinesAt(listed: seq<CommandLineFlagInfo>, k: nat)
    requires k < |listed|
    ensures DumpLines(listed)[k] == DumpLine(listed[k].name, listed[k].defaultValue)
  {
    var front := listed[..|listed| - 1];
    if k < |front| {
      DumpLinesAt(front, k);
    }
  }

  /** Line `k` of what `dumpDefaultFlags` writes is the `k`-th listed name
      with the default value `getDefaultValue` reports for it. */
  lemma DumpedDefault(s: State, shell: bool, external: bool, cli: bool, k: nat)
    requires s.store.Valid()
    requires k < |Emitted(s, shell, external, cli)|
    ensures var listed := Emitted(s, shell, external, cli);
      DumpLines(listed)[k] == DumpLine(listed[k].name, s.GetDefaultValue(listed[k].name, "").1)
  {
    EmittedListing(s, shell, external, cli);
    DumpLinesAt(Emitted(s, shell, external, cli), k);
  }

  /** The help line `printFlags` writes for one name. */
  function HelpLine(name: string, typeName: string, width: int, description: string): string
  {
    var value := if typeName != "bool" then " VALUE" else "";
    var pad := width - |value| - Size(name);
    "    --" + name + value + (if 0 < pad < 80 then Spaces(pad) else "") + "  " + description
  }

  /** The help lines `printFlags` writes for the records `listed`, in a
      column of width `width`. */
  function HelpLines(s: State, listed: seq<CommandLineFlagInfo>, width: int): (r: seq<string>)
    requires AllTerminate(s, listed)
    ensures |r| == |listed|
  {
    if listed == [] then []
    else
      var last := listed[|listed| - 1].name;
      HelpLines(s, listed[..|listed| - 1], width) + [HelpLine(last, s.GetType(last), width, s.GetDescription(last))]
  }

  /** Line `k` is the help line of record `k`, with the type gflags reports
      for its name and the description `getDescription` finds for it. */
  lemma {:induction false} HelpLinesAt(s: State, listed: seq<CommandLineFlagInfo>, width: int, k: nat)
    requires AllTerminate(s, listed)
    requires k < |listed|
    ensures HelpLines(s, listed, width)[k] ==
      HelpLine(listed[k].name, s.GetType(listed[k].name), width, s.GetDescription(listed[k].name))
  {
    var front := listed[..|listed| - 1];
    if k < |front| {
      HelpLinesAt(s, front, width, k);
    }
  }

  /** Every name both listings visit ends its alias chain. */
  ghost predicate ChainsEnd(s: State, shell: bool, external: bool, cli: bool)
  {
    forall n :: n in s.store.entries && Passes(s, n, shell, external, cli) ==> s.Terminates(n)
  }

  /** The alias chain of every record of `listed` ends, so `getDescription`
      returns for each of them. */
  ghost predicate AllTerminate(s: State, listed: seq<CommandLineFlagInfo>)
  {
    forall k :: 0 <= k < |listed| ==> s.Terminates(listed[k].name)
  }

  /** What `printFlags` writes on the registry `s`: `out`, and whether it
      stops with `std::length_error`. The column width is the length of the
      longest declared name plus 6. The command-line listing stops right
      after the header's first fragment when that width is below 13 (the
      pad of the `--flagfile` header would be a negative `size_t`); otherwise
      the whole help text of the visited names is written. */
  ghost predicate Printed(s: State, shell: bool, external: bool, cli: bool, out: seq<string>, lengthError: bool)
    requires s.store.Valid()
  {
    var width := MaxLength(s.details.Keys) + 6;
    && (lengthError <==> !shell && cli && width < 13)
    && (lengthError ==> out == [FlagfileOption()])
    && (!lengthError ==>
          var listed := Emitted(s, shell, external, cli);
          AllTerminate(s, listed) && out == Header(shell, cli, width) + HelpLines(s, listed, width))
  }

  /** The lines of the help text: the header comes first exactly for the
      command-line listing, and the others are the help lines of the
      records, in their order, each with the type gflags reports for its
      name and the description `getDescription` finds for it. */
  lemma HelpTextLines(s: State, listed: seq<CommandLineFlagInfo>, shell: bool, cli: bool, width: int)
    requires AllTerminate(s, listed)
    requires !shell && cli ==> width >= 13
    ensures var text := Header(shell, cli, width) + HelpLines(s, listed, width);
      var h := if !shell && cli then 1 else 0;
      && |text| == h + |listed|
      && (!shell && cli ==> text[0] == FlagfileLine(width))
      && forall k :: 0 <= k < |listed| ==>
           text[h + k] == HelpLine(listed[k].name, s.GetType(listed[k].name), width, s.GetDescription(listed[k].name))
  {
    var header := Header(shell, cli, width);
    HeaderFirst(header, HelpLines(s, listed, width));
    forall k | 0 <= k < |listed|
      ensures (header + HelpLines(s, listed, width))[|header| + k] ==
        HelpLine(listed[k].name, s.GetType(listed[k].name), width, s.GetDescription(listed[k].name))
    {
      HelpLinesAt(s, listed, width, k);
    }
  }

  lemma HeaderFirst(header: seq<string>, lines: seq<string>)
    ensures |header + lines| == |header| + |lines|
    ensures header != [] ==> (header + lines)[0] == header[0]
  {
  }

  lemma HelpLinesSnoc(s: State, listed: seq<CommandLineFlagInfo>, info: CommandLineFlagInfo, width: int)
    requires AllTerminate(s, listed) && s.Terminates(info.name)
    ensures AllTerminate(s, listed + [info])
    ensures HelpLines(s, listed + [info], width) ==
      HelpLines(s, listed, width) + [HelpLine(info.name, s.GetType(info.name), width, s.GetDescription(info.name))]
  {
    assert (listed + [info])[..|listed|] == listed;
  }

  /** The help line, written the way `printFlags` assembles it: the name,
      then " VALUE" and a smaller pad for a non-bool flag, then the pad when
      it is between 1 and 79, then the description. */
  lemma HelpLineAssembled(name: string, typeName: string, width: int, description: string)
    ensures
      var line0 := "    --" + name;
      var line1 := if typeName != "bool" then line0 + " VALUE" else line0;
      var pad := (if typeName != "bool" then width - 6 else width) - Size(name);
      var line2 := if pad > 0 && pad < 80 then line1 + Spaces(pad) else line1;
      line2 + "  " + description == HelpLine(name, typeName, width, description)
  {
  }

  /** The fixed pieces of a help line are ASCII, one byte per character. */
  lemma OptionPrefixSize()
    ensures Size("    --") == 6
  {
  }

  lemma ValueSize()
    ensures Size(" VALUE") == 6
  {
  }

  /** Every help line starts with `--name`; whenever the padding is written,
      the two spaces before the description start after `width + 6` bytes,
      the byte column where the help text of the `--flagfile` header starts
      too. */
  lemma HelpLineLayout(name: string, typeName: string, width: int, description: string)
    ensures "    --" + name <= HelpLine(name, typeName, width, description)
    ensures var pad := width - (if typeName != "bool" then 6 else 0) - Size(name);
      0 < pad < 80 ==>
        var line := HelpLine(name, typeName, width, description);
        var col := |line| - |description| - 2;
        0 <= col && line[col..] == "  " + description && Size(line[..col]) == width + 6
  {
    var value := if typeName != "bool" then " VALUE" else "";
    var pad := width - |value| - Size(name);
    var padding := if 0 < pad < 80 then Spaces(pad) else "";
    var line := HelpLine(name, typeName, width, description);
    var head := "    --" + name + value + padding;
    var rest := "  " + description;
    assert line == head + rest;
    assert line == ("    --" + name) + (value + padding + rest);
    ConcatParts("    --" + name, value + padding + rest);
    if 0 < pad < 80 {
      ConcatParts(head, rest);
      assert |line| - |description| - 2 == |head|;
      HeadBytes(name, value, padding, width);
    }
  }

  /** The bytes before the description: six for `    --`, the name, and
      the ASCII value marker and pad, `width + 6` in all. */
  lemma HeadBytes(name: string, value: string, padding: string, width: int)
    requires value == "" || value == " VALUE"
    requires var pad := width - |value| - Size(name); 0 < pad < 80 && padding == Spaces(pad)
    ensures Size("    --" + name + value + padding) == width + 6
  {
    if value != "" {
      ValueSize();
    }
    SizeAscii(padding);
    OptionPrefixSize();
    SizeConcat4("    --", name, value, padding);
  }

  /** The `--flagfile` header starts with its option text, and its help
      text starts after `width + 6` characters; the header is ASCII, so that
      is also `width + 6` bytes. */
  lemma FlagfileLineLayout(width: int)
    requires width >= 13
    ensures var line := FlagfileLine(width);
      FlagfileOption() <= line && |line| >= width + 6 && line[width + 6..] == FlagfileHelp()
  {
    var line := FlagfileLine(width);
    var head := FlagfileOption() + Spaces(width - 8 - 5);
    assert |head| == width + 6;
    assert line == head + FlagfileHelp();
    assert line == FlagfileOption() + (Spaces(width - 8 - 5) + FlagfileHelp());
  }

  /** The size in bytes of the longest declared name, 0 when none is
      declared. */
  ghost function MaxLength(keys: set<string>): (r: nat)
    ensures forall k :: k in keys ==> Size(k) <= r
    ensures keys != {} ==> exists k :: k in keys && Size(k) == r
    ensures keys == {} ==> r == 0
    decreases keys
  {
    if keys == {} then 0
    else
      var k :| k in keys;
      var m := MaxLength(keys - {k});
      if Size(k) > m then Size(k) else m
  }

  /** A name of six two-byte characters widens the column by its twelve
      bytes, so the `--flagfile` header's pad is 18 - 13 = 5. */
  lemma MultiByteNameWidth()
    ensures MaxLength({"éééééé"}) + 6 == 18
  {
    var name := "éééééé";
    assert Size(name) == 12;
    assert MaxLength({name}) == Size(name);
  }

  lemma MaxLengthUnique(keys: set<string>, m: nat)
    requires forall k :: k in keys ==> Size(k) <= m
    requires (keys != {} ==> exists k :: k in keys && Size(k) == m) && (keys == {} ==> m == 0)
    ensures m == MaxLength(keys)
  {
    if keys != {} {
      var k :| k in keys && Size(k) == m;
      var k' :| k' in keys && Size(k') == MaxLength(keys);
    }
  }
}
