/**
 `gflags::ext::Flag` (flags.cc): the registry object with its three maps and
 the gflags store it forwards to, and the operations that change it or loop
 over it.
 */
module Flags {
  import opened Text
  import opened Gflags
  import opened Registry
  import opened Listing

  /** The first loop of both listings: `ordered_info`, the records
      `GetAllFlags` gives re-keyed by name. */
  method OrderedInfo(store: Store) returns (ordered: seq<CommandLineFlagInfo>)
    requires store.Valid()
    ensures ordered == Rekey(store.GetAllFlags())
  {
    var info := store.GetAllFlags();
    ordered := [];
    for i := 0 to |info|
      invariant ordered == Rekey(info[..i])
    {
      RekeySnoc(info, i);
      ordered := Place(ordered, info[i]);
    }
    assert info[..|info|] == info;
  }

  /** The loop of `printFlags` that finds the longest declared name. */
  method MaxNameLength(names: set<string>) returns (max: nat)
    ensures max == MaxLength(names)
  {
    max := 0;
    var rest := names;
    while rest != {}
      invariant rest <= names
      invariant forall k :: k in names - rest ==> Size(k) <= max
      invariant max == 0 || exists k :: k in names - rest && Size(k) == max
      decreases rest
    {
      var name :| name in rest;
      max := if max > Size(name) then max else Size(name);
      assert name in names - (rest - {name});
      rest := rest - {name};
    }
    MaxLengthUnique(names, max);
  }

  /** A name both listings visit ends its alias chain, and the record for
      it carries the type gflags reports. */
  ghost predicate Describable(s: State, ordered: seq<CommandLineFlagInfo>, shell: bool, external: bool, cli: bool)
  {
    forall k :: 0 <= k < |ordered| && Passes(s, ordered[k].name, shell, external, cli) ==>
      s.Terminates(ordered[k].name) && ordered[k].typeName == s.GetType(ordered[k].name)
  }

  lemma RekeyedDescribable(s: State, shell: bool, external: bool, cli: bool)
    requires s.store.Valid() && ChainsEnd(s, shell, external, cli)
    ensures Describable(s, Rekey(s.store.GetAllFlags()), shell, external, cli)
  {
    RekeyedStore(s.store);
  }

  /** One help line of `printFlags`, put together piece by piece as the
      loop body does. */
  method AssembleHelpLine(name: string, typeName: string, width: int, description: string) returns (line: string)
    ensures line == HelpLine(name, typeName, width, description)
  {
    line := "    --" + name;
    var pad := width;
    if typeName != "bool" {
      line := line + " VALUE";
      pad := pad - 6;
    }
    pad := pad - Size(name);
    if pad > 0 && pad < 80 {
      // a pad of 80 or more is not written
      line := line + Spaces(pad);
    }
    line := line + "  " + description;
    HelpLineAssembled(name, typeName, width, description);
  }

  /** The loop of `printFlags` that writes the help line of every record of
      `ordered` that passes the filter, in a column of width `width`. */
  method WriteHelpLines(s: State, ordered: seq<CommandLineFlagInfo>, width: int, shell: bool, external: bool, cli: bool)
    returns (lines: seq<string>)
    requires Describable(s, ordered, shell, external, cli)
    ensures var listed := Emit(s, ordered, shell, external, cli);
      AllTerminate(s, listed) && lines == HelpLines(s, listed, width)
  {
    lines := [];
    ghost var listed: seq<CommandLineFlagInfo> := [];
    for k := 0 to |ordered|
      invariant listed == Emit(s, ordered[..k], shell, external, cli)
      invariant AllTerminate(s, listed)
      invariant lines == HelpLines(s, listed, width)
    {
      EmitSnoc(s, ordered, k, shell, external, cli);
      var flag := ordered[k];
      if !Passes(s, flag.name, shell, external, cli) {
        continue;
      }
      var line := AssembleHelpLine(flag.name, flag.typeName, width, s.GetDescription(flag.name));
      HelpLinesSnoc(s, listed, flag, width);
      lines := lines + [line];
      listed := listed + [flag];
    }
    assert ordered[..|ordered|] == ordered;
  }

  /** The outcome when the `--flagfile` header cannot be padded. */
  lemma PrintedStop(s: State, shell: bool, external: bool, cli: bool)
    requires s.store.Valid()
    requires !shell && cli && MaxLength(s.details.Keys) + 6 < 13
    ensures Printed(s, shell, external, cli, [FlagfileOption()], true)
  {
  }

  /** The outcome when the header (if any) and all help lines are written. */
  lemma PrintedAll(s: State, shell: bool, external: bool, cli: bool, width: int, listed: seq<CommandLineFlagInfo>,
                   header: seq<string>, lines: seq<string>)
    requires s.store.Valid()
    requires width == MaxLength(s.details.Keys) + 6 && (!shell && cli ==> width >= 13)
    requires listed == Emitted(s, shell, external, cli) && AllTerminate(s, listed)
    requires header == Header(shell, cli, width) && lines == HelpLines(s, listed, width)
    ensures Printed(s, shell, external, cli, header + lines, false)
  {
  }

  class Flag {
    var details: map<string, FlagDetail>   // flags_
    var aliases: map<string, FlagDetail>   // aliases_
    var custom: map<string, string>        // custom_
    var gflags: Store                      // the gflags library

    ghost predicate Valid()
      reads this
    {
      gflags.Valid()
    }

    /** The registry as a value. */
    function Model(): State
      reads this
    {
      State(details, aliases, custom, gflags)
    }

    /** The registry at startup, over a given gflags store. */
    constructor (store: Store)
      requires store.Valid()
      ensures Valid()
      ensures details == map[] && aliases == map[] && custom == map[] && gflags == store
    {
      details, aliases, custom, gflags := map[], map[], map[], store;
    }

    /** `Flag::create`: declares `name` unless it is already declared. */
    method Create(name: string, detail: FlagDetail) returns (r: int)
      requires Valid()
      modifies this
      ensures Valid() && r == 0
      ensures details == MapInsert(old(details), name, detail)
      ensures aliases == old(aliases) && custom == old(custom) && gflags == old(gflags)
    {
      details := MapInsert(details, name, detail);
      return 0;
    }

    /** `Flag::createAlias`: declares the alias unless it is already declared. */
    method CreateAlias(alias: string, detail: FlagDetail) returns (r: int)
      requires Valid()
      modifies this
      ensures Valid() && r == 0
      ensures aliases == MapInsert(old(aliases), alias, detail)
      ensures details == old(details) && custom == old(custom) && gflags == old(gflags)
    {
      aliases := MapInsert(aliases, alias, detail);
      return 0;
    }

    /** `Flag::updateValue`. */
    method UpdateValue(name: string, value: string) returns (ok: bool)
      requires Valid()
      modifies this
      ensures Valid()
      ensures (Model(), ok) == old(Model()).UpdateValue(name, value)
    {
      if name in details {
        gflags := gflags.SetCommandLineOption(name, value);
        return true;
      } else if name in aliases {
        var realName := aliases[name].description;
        gflags := gflags.SetCommandLineOption(realName, value);
        return true;
      } else if Find(name, CustomPrefix) == 0 {
        custom := custom[name := value];
      }
      return false;
    }

    /** The record `flags()` builds for a declared flag gflags knows. */
    function DeclaredInfo(name: string): FlagInfo
      requires name in details && name in gflags.entries
      reads this
    {
      var e := gflags.entries[name];
      FlagInfo(e.typeName, details[name].description, e.defaultValue, e.currentValue, details[name])
    }

    /** `Flag::flags()`: every declared flag gflags knows, merged from both,
        and every custom value, which wins over a declared flag of its name. */
    method Flags() returns (r: map<string, FlagInfo>)
      requires Valid()
      ensures forall n :: n in r <==> n in custom || (n in details && n in gflags.entries)
      ensures forall n :: n in custom ==> r[n] == CustomInfo(custom[n])
      ensures forall n :: n in r && n !in custom ==> r[n] == DeclaredInfo(n)
      ensures forall n :: n in r ==> r[n].currentValue == Model().GetValue(n)
      ensures forall n :: n in r && n !in custom ==> r[n].typeName == Model().GetType(n)
    {
      var info := gflags.GetAllFlags();
      r := map[];
      for i := 0 to |info|
        invariant forall n :: n in r <==> n in details && n in gflags.listing[..i]
        invariant forall n :: n in r ==> n in gflags.entries && r[n] == DeclaredInfo(n)
      {
        var flag := info[i];
        if flag.name !in details {
          continue;
        }
        r := r[flag.name := FlagInfo(flag.typeName, details[flag.name].description, flag.defaultValue,
                                     flag.currentValue, details[flag.name])];
      }
      assert gflags.listing[..|info|] == gflags.listing;
      var rest := custom.Keys;
      while rest != {}
        invariant rest <= custom.Keys
        invariant forall n :: n in r <==> n in custom.Keys - rest || (n in details && n in gflags.entries)
        invariant forall n :: n in custom.Keys - rest ==> r[n] == CustomInfo(custom[n])
        invariant forall n :: n in r && n !in custom.Keys - rest ==> n in gflags.entries && r[n] == DeclaredInfo(n)
        decreases rest
      {
        var name :| name in rest;
        r := r[name := FlagInfo("string", "", "", custom[name], EmptyDetail)];
        rest := rest - {name};
      }
    }

    /** `Flag::printFlags`: the lines written to stdout, without their line
        ends. The `--flagfile` header pads with `max - 8 - 5` spaces, a
        `size_t` that wraps when the longest declared name has fewer than 7
        bytes; then the source throws `std::length_error` after writing the header's
        first fragment, which is what `lengthError` and `out` report. */
    method PrintFlags(shell: bool, external: bool, cli: bool) returns (out: seq<string>, lengthError: bool)
      requires Valid()
      requires !(!shell && cli && MaxLength(details.Keys) + 6 < 13) ==> ChainsEnd(Model(), shell, external, cli)
      ensures Printed(Model(), shell, external, cli, out, lengthError)
    {
      var s := Model();
      var ordered := OrderedInfo(s.store);

      // the longest declared name, plus room for " VALUE"
      var max := MaxNameLength(s.details.Keys);
      max := max + 6;

      out := [];
      if !shell && cli {
        if max < 8 + 5 {
          PrintedStop(s, shell, external, cli);
          return [FlagfileOption()], true;
        }
        out := [FlagfileLine(max)];
      }
      assert out == Header(shell, cli, max);
      lengthError := false;
      RekeyedDescribable(s, shell, external, cli);
      var lines := WriteHelpLines(s, ordered, max, shell, external, cli);
      ghost var listed := Emit(s, ordered, shell, external, cli);
      assert listed == Emitted(s, shell, external, cli);
      PrintedAll(s, shell, external, cli, max, listed, out, lines);
      out := out + lines;
    }

    /** `Flag::dumpDefaultFlags`: the lines written to the stream, without
        their line ends; one `name=default` line per listed name. */
    method DumpDefaultFlags(shell: bool, external: bool, cli: bool) returns (lines: seq<string>)
      requires Valid()
      ensures lines == DumpLines(Emitted(Model(), shell, external, cli))
    {
      var s := Model();
      var ordered := OrderedInfo(gflags);
      RekeyedStore(gflags);

      lines := [];
      ghost var listed: seq<CommandLineFlagInfo> := [];
      for k := 0 to |ordered|
        invariant listed == Emit(s, ordered[..k], shell, external, cli)
        invariant lines == DumpLines(listed)
      {
        EmitSnoc(s, ordered, k, shell, external, cli);
        var flag := ordered[k];
        if !Passes(s, flag.name, shell, external, cli) {
          continue;
        }
        DumpLinesSnoc(listed, flag);
        lines := lines + [DumpLine(flag.name, flag.defaultValue)];
        listed := listed + [flag];
      }
      assert ordered[..|ordered|] == ordered;
      assert Emitted(s, shell, external, cli) == Emit(s, ordered, shell, external, cli);
    }
  }
}
