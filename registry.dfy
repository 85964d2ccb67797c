/**
 The registry's data model and its lookups, as values: the declared flags,
 the aliases, the `custom_` string store and the gflags store, and what
 `getValue`, `getType`, `getDefaultValue`, `isDefault`, `getDescription` and
 `updateValue` make of them (flags.cc).
 */
module Registry {
  import opened Text
  import opened Gflags

  /** Metadata of a declared flag or alias. For an alias, `description` holds
      the name of the flag it stands for (flagalias.h, `_FLAG_ALIAS`). */
  datatype FlagDetail = FlagDetail(description: string, shell: bool, external: bool, cli: bool, hidden: bool)

  /** A value-initialised `FlagDetail{}`. */
  const EmptyDetail: FlagDetail := FlagDetail("", false, false, false, false)

  /** What `Flag::flags()` reports about one name. */
  datatype FlagInfo =
    FlagInfo(typeName: string, description: string, defaultValue: string, currentValue: string, detail: FlagDetail)

  /** Names that can be written without being declared begin with this. */
  const CustomPrefix: string := "custom_"

  /** The entry `flags()` reports for a custom value. */
  function CustomInfo(value: string): (r: FlagInfo)
    ensures r.currentValue == value && r.typeName == "string"
  {
    FlagInfo("string", "", "", value, EmptyDetail)
  }

  /** `m.insert({key, value})` of a `std::map`: a new key is added, a key
      already present keeps the value it had. */
  function MapInsert<V>(m: map<string, V>, key: string, value: V): (r: map<string, V>)
    ensures r.Keys == m.Keys + {key}
    ensures key !in m ==> r[key] == value
    ensures forall k :: k in m ==> r[k] == m[k]
  {
    if key in m then m else m[key := value]
  }

  /** The registry: `flags_`, `aliases_`, `custom_` and the gflags store. */
  datatype State = State(
    details: map<string, FlagDetail>,
    aliases: map<string, FlagDetail>,
    custom: map<string, string>,
    store: Store)
  {
    /** `getDefaultValue(name, value)`: the found bit and the output argument,
        left as it was for a name gflags does not know. */
    function GetDefaultValue(name: string, value: string): (r: (bool, string))
      ensures r.0 <==> name in store.entries
      ensures r.1 == if name in store.entries then store.entries[name].defaultValue else value
    {
      match store.GetCommandLineFlagInfo(name)
      case None => (false, value)
      case Some(info) => (true, info.defaultValue)
    }

    /** `isDefault(name)`: false also for a name gflags does not know. */
    function IsDefault(name: string): (r: bool)
      ensures r <==> name in store.entries && store.entries[name].isDefault
    {
      match store.GetCommandLineFlagInfo(name)
      case None => false
      case Some(info) => info.isDefault
    }

    /** `getType(name)`: "" for a name gflags does not know. */
    function GetType(name: string): (r: string)
      ensures r == if name in store.entries then store.entries[name].typeName else ""
    {
      match store.GetCommandLineFlagInfo(name)
      case None => ""
      case Some(info) => info.typeName
    }

    /** `getValue(name)`: a custom value shadows everything, declared flag
        or alias of the same name included; otherwise gflags' current value,
        or "" for a name it does not know. */
    function GetValue(name: string): (r: string)
      ensures name in custom ==> r == custom[name]
      ensures name !in custom && name in store.entries ==> r == store.entries[name].currentValue
      ensures name !in custom && name !in store.entries ==> r == ""
    {
      if name in custom then custom[name]
      else
        var currentValue := "";
        store.GetCommandLineOption(name, currentValue).1
    }

    // ----- getDescription and the alias chain -----

    /** The name an alias forwards to; any other name stays where it is. */
    function Step(name: string): string
    {
      if name !in details && name in aliases then aliases[name].description else name
    }

    /** The name reached from `name` after `k` steps along the alias chain. */
    function Follow(name: string, k: nat): string
      decreases k
    {
      if k == 0 then name else Follow(Step(name), k - 1)
    }

    /** The number of alias hops `getDescription` makes from `name` before it
        reaches a declared flag or a name that is not an alias, if that takes
        at most `fuel` hops. */
    function Hops(name: string, fuel: nat): Option<nat>
      decreases fuel
    {
      if name in details || name !in aliases then Some(0)
      else if fuel == 0 then None
      else match Hops(aliases[name].description, fuel - 1)
        case None => None
        case Some(k) => Some(k + 1)
    }

    /** The recursion of `getDescription(name)` comes to an end: the alias
        chain from `name` is finite (it does not run into a cycle). */
    ghost predicate Terminates(name: string)
    {
      exists fuel: nat :: Hops(name, fuel).Some?
    }

    ghost function HopCount(name: string): nat
      requires Terminates(name)
    {
      var fuel: nat :| Hops(name, fuel).Some?;
      Hops(name, fuel).value
    }

    lemma {:induction false} HopsMonotone(name: string, fuel: nat, more: nat)
      requires Hops(name, fuel).Some?
      ensures Hops(name, fuel + more) == Hops(name, fuel)
      decreases fuel
    {
      if name !in details && name in aliases {
        HopsMonotone(aliases[name].description, fuel - 1, more);
      }
    }

    /** Enough fuel always gives the same hop count. */
    lemma HopCountIs(name: string, fuel: nat)
      requires Hops(name, fuel).Some?
      ensures Terminates(name) && HopCount(name) == Hops(name, fuel).value
    {
      var chosen: nat :| Hops(name, chosen).Some? && HopCount(name) == Hops(name, chosen).value;
      if chosen <= fuel {
        HopsMonotone(name, chosen, fuel - chosen);
      } else {
        HopsMonotone(name, fuel, chosen - fuel);
      }
    }

    /** One hop along the chain brings the hop count down by one. */
    lemma AliasStep(name: string)
      requires Terminates(name) && name !in details && name in aliases
      ensures Terminates(aliases[name].description)
      ensures HopCount(aliases[name].description) + 1 == HopCount(name)
    {
      var fuel: nat :| Hops(name, fuel).Some?;
      HopCountIs(name, fuel);
      HopCountIs(aliases[name].description, fuel - 1);
    }

    /** `getDescription(name)`: the description of a declared flag; for an
        alias, the description of the name it forwards to; "" otherwise. */
    function GetDescription(name: string): (r: string)
      requires Terminates(name)
      ensures name in details ==> r == details[name].description
      ensures name !in details && name !in aliases ==> r == ""
      decreases HopCount(name)
    {
      if name in details then details[name].description
      else if name in aliases then
        AliasStep(name);
        GetDescription(aliases[name].description)
      else ""
    }

    /** The description a name has of its own, without following aliases. */
    function OwnDescription(name: string): string
    {
      if name in details then details[name].description else ""
    }

    /** `getDescription` gives the description of the name at the end of the
        alias chain: a declared flag, or a name that is no alias (then ""). */
    lemma {:induction false} DescriptionFollowsChain(name: string)
      requires Terminates(name)
      ensures var end := Follow(name, HopCount(name));
        (end in details || end !in aliases) && GetDescription(name) == OwnDescription(end)
      decreases HopCount(name)
    {
      if name in details || name !in aliases {
        HopCountIs(name, 0);
      } else {
        AliasStep(name);
        DescriptionFollowsChain(aliases[name].description);
      }
    }

    /** A declared flag describes itself. */
    lemma DeclaredDescription(name: string)
      requires name in details
      ensures Terminates(name) && GetDescription(name) == details[name].description
    {
      assert Hops(name, 0).Some?;
    }

    /** Under the alias convention (an alias names a declared flag), the
        alias has the description of that flag. */
    lemma AliasOfDeclaredFlag(name: string)
      requires name !in details && name in aliases && aliases[name].description in details
      ensures Terminates(name)
      ensures GetDescription(name) == details[aliases[name].description].description
    {
      assert Hops(aliases[name].description, 0) == Some(0);
      assert Hops(name, 1) == Some(1);
    }

    /** Two aliases forwarding to each other (or one alias to itself) make
        `getDescription` recurse forever. */
    lemma AliasCycleDoesNotTerminate(a: string, b: string)
      requires a !in details && a in aliases && aliases[a].description == b
      requires b !in details && b in aliases && aliases[b].description == a
      ensures !Terminates(a) && !Terminates(b)
    {
      forall fuel: nat ensures Hops(a, fuel).None? && Hops(b, fuel).None? {
        CycleHops(a, b, fuel);
      }
    }

    lemma {:induction false} CycleHops(a: string, b: string, fuel: nat)
      requires a !in details && a in aliases && aliases[a].description == b
      requires b !in details && b in aliases && aliases[b].description == a
      ensures Hops(a, fuel).None? && Hops(b, fuel).None?
    {
      if fuel > 0 {
        CycleHops(a, b, fuel - 1);
      }
    }

    // ----- updateValue -----

    /** `updateValue(name, value)`: the new registry and the returned bit.
        A declared flag is set in gflags; else an alias sets the flag it
        names; else a `custom_` name is stored in the custom map (and false is
        returned all the same); any other name changes nothing. */
    function UpdateValue(name: string, value: string): (r: (State, bool))
      ensures r.0.details == details && r.0.aliases == aliases
      ensures r.1 <==> name in details || name in aliases
      // a declared flag: gflags now holds the value, and it is no longer default
      ensures name in details && name in store.entries && name !in custom ==>
        r.0.GetValue(name) == value && !r.0.IsDefault(name)
      // an alias: the flag it names holds the value
      ensures name !in details && name in aliases ==>
        var target := aliases[name].description;
        target in store.entries && target !in custom ==> r.0.GetValue(target) == value
      // a declared flag or an alias never touches the custom map
      ensures name in details || name in aliases ==> r.0.custom == custom
      // neither: the custom map takes the value exactly for a custom_ name, gflags is untouched
      ensures name !in details && name !in aliases ==>
        r.0.store == store && r.0.custom == (if CustomPrefix <= name then custom[name := value] else custom)
      ensures name !in details && name !in aliases && CustomPrefix <= name ==> r.0.GetValue(name) == value
      // no other name sees a different value
      ensures forall n :: n != name && n != Step(name) ==> r.0.GetValue(n) == GetValue(n)
      // gflags knows the same names in the same order, and only the flag
      // `name` resolves to changes; it keeps its type and default
      ensures r.0.store.listing == store.listing && r.0.store.entries.Keys == store.entries.Keys
      ensures store.Valid() ==> r.0.store.Valid()
      ensures forall n :: n in store.entries && n != Step(name) ==> r.0.store.entries[n] == store.entries[n]
      ensures (name in details || name in aliases) && Step(name) in store.entries ==>
        var e, e' := store.entries[Step(name)], r.0.store.entries[Step(name)];
        e'.typeName == e.typeName && e'.defaultValue == e.defaultValue && e'.currentValue == value && !e'.isDefault
    {
      if name in details then
        (this.(store := store.SetCommandLineOption(name, value)), true)
      else if name in aliases then
        var realName := aliases[name].description;
        (this.(store := store.SetCommandLineOption(realName, value)), true)
      else
        FindAtStartIsPrefix(name, CustomPrefix);
        if Find(name, CustomPrefix) == 0 then
          (this.(custom := custom[name := value]), false)
        else
          (this, false)
    }
  }
}
