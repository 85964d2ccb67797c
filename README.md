# gflags::ext::Flag — a Dafny model

This project models the flag registry `gflags::ext::Flag` from `flags.cc`.
The registry is a metadata and aliasing layer over the gflags library. It
keeps three maps:

- `flags_`: declared flags, each with a `FlagDetail` (a description and the
  `shell`, `external`, `cli` and `hidden` bits);
- `aliases_`: aliases, whose `FlagDetail.description` holds the name of the
  flag they stand for (the `_FLAG_ALIAS` convention of `flagalias.h`);
- `custom_`: string values for names beginning with `custom_`.

The model has five modules, one per file:

- `Text` (text.dfy): the `std::string` facts used. These are the `operator<`
  order that keeps the keys of a `std::map`, `std::string::find`,
  `std::string(n, ' ')`, and `std::string::size()`. A Dafny `string` is a
  sequence of Unicode characters, while `size()` counts the bytes of the
  UTF-8 encoding, so name lengths are measured by `Text.Size`, not by `|s|`.
- `Gflags` (gflags.dfy): the gflags library reduced to an abstract store.
  The store maps each known name to its type, default value, current value
  and "is default" bit. It also holds the order in which `GetAllFlags`
  reports the flags; names may repeat in that order.
- `Registry` (registry.dfy): the registry as a value, `State`, with the pure
  lookups. These are `getDefaultValue`, `isDefault`, `getType`, `getValue`,
  the alias-following `getDescription`, and `updateValue` as a function from
  state to state.
- `Listing` (listing.dfy): what the two listings visit and write. The gflags
  records are re-keyed into a name-ordered `std::map`, so the last record of
  a name wins. Both listings apply the same visibility filter. The module
  also gives the layout of a help line, of the `--flagfile` header and of a
  `name=default` line.
- `Flags` (flag.dfy): the class `Flag`, with the three maps and the store as
  fields. `create`, `createAlias` and `updateValue` change those fields.
  `flags()`, `printFlags` and `dumpDefaultFlags` are methods with the
  source's loops, each proved against the specification functions of
  `Registry` and `Listing`.

Output is modelled as a sequence of lines without their line ends.
`printFlags` can stop early with `std::length_error`, and its result says
so; see `Listing.Printed`.

`create` and `createAlias` use `std::map::insert` (flags.cc:17, 22), so the
first declaration of a name is kept and later ones are ignored.

## Model

| member | source | states |
|---|---|---|
| Registry.MapInsert | flags.cc:17 | `std::map::insert`: a new key is added with its value, and a key already present keeps the value it had |
| Flags.Flag.Create | flags.cc:16-19 | declares the flag unless it is already declared (the first detail wins); aliases, custom values and gflags are unchanged; returns 0 |
| Flags.Flag.CreateAlias | flags.cc:21-24 | declares the alias unless it is already declared (the first detail wins); flags, custom values and gflags are unchanged; returns 0 |
| Registry.State.GetDefaultValue | flags.cc:26-34 | found exactly when gflags knows the name; then the value is gflags' default; otherwise the output argument is left as it was |
| Registry.State.IsDefault | flags.cc:36-43 | true exactly when gflags knows the name and reports it at its default; false for an unknown name |
| Registry.State.GetValue | flags.cc:45-56 | a custom value shadows every other value of its name; otherwise gflags' current value; "" for a name gflags does not know |
| Registry.State.GetType | flags.cc:62-68 | gflags' type name for a known name, "" otherwise |
| Registry.State.GetDescription | flags.cc:70-79 | a declared flag gives its own description (flags are checked before aliases); a name that is neither declared nor an alias gives ""; an alias recurses on the name it stands for, for as long as that chain ends |
| Registry.State.DescriptionFollowsChain | flags.cc:70-79 | when the alias chain from a name ends, `getDescription` gives the description of the name at its end: a declared flag, or "" for a name that is no alias |
| Registry.State.DeclaredDescription | flags.cc:71-73 | a declared flag's description is its own, even when an alias of the same name exists |
| Registry.State.AliasOfDeclaredFlag | flags.cc:75-77 | an alias that names a declared flag gets that flag's description |
| Registry.State.AliasCycleDoesNotTerminate | flags.cc:75-77 | two aliases naming each other (or one alias naming itself) make `getDescription` recurse without end |
| Text.Size | flags.cc:133 | `std::string::size()`: the UTF-8 byte count, at least the number of characters and at most four times it |
| Text.SizeAscii | flags.cc:133 | the byte count equals the character count exactly when every character is ASCII |
| Text.SizeCountsBytes | flags.cc:172 | a non-ASCII character such as `é` is one character but two bytes |
| Text.SizeConcat | flags.cc:165-178 | the byte count of a concatenation is the sum of the byte counts |
| Text.Find | flags.cc:90 | `std::string::find`: the first position where the pattern occurs, or npos (-1) when it occurs nowhere |
| Text.FindAtStartIsPrefix | flags.cc:90 | `name.find("custom_") == 0` holds exactly when the name begins with `custom_` |
| Registry.State.UpdateValue | flags.cc:81-94 | a declared flag is set in gflags (checked first), else an alias sets the flag it names; both return true, whatever gflags does. Otherwise a `custom_` name is stored in the custom map, returning false, and any other name changes nothing. Flags and aliases never change; no other name's value changes. gflags keeps its names and their `GetAllFlags` order; only the flag the name resolves to changes, keeping its type and default, taking the value and leaving its default state; every other gflags entry is unchanged |
| Flags.Flag.UpdateValue | flags.cc:81-94 | the new fields and the result are exactly those of `Registry.State.UpdateValue` on the old registry |
| Flags.Flag.Flags | flags.cc:96-118 | keys are the custom names plus the declared names gflags knows. A custom entry is `{"string","","",value,{}}` and wins over a declared flag of its name. A declared entry takes type, default and current value from gflags and description and detail from `flags_`. Every entry's current value is what `getValue` reports |
| Listing.Place | flags.cc:127 | `ordered_info[flag.name] = &flag` on a name-ordered map: it stays strictly ascending, its names gain the record's name, the record replaces any earlier one of that name, and every other entry is kept |
| Listing.Rekey | flags.cc:125-128 | the map built by placing the records one after another is strictly ascending by name |
| Listing.RekeyKeys | flags.cc:125-128 | re-keying into `ordered_info` gives each name once, in strictly ascending order, with the last record that carried it |
| Listing.RekeyedStore | flags.cc:121-128 | re-keying what `GetAllFlags` reports gives every name gflags knows, each with gflags' record for it |
| Flags.OrderedInfo | flags.cc:125-128 | the loop builds exactly the re-keyed map |
| Listing.MaxLength | flags.cc:130-134 | the byte size (`size()`) of the longest declared name: no name has more bytes, some name has this many, 0 when none is declared |
| Listing.MultiByteNameWidth | flags.cc:130-141 | a declared name of six two-byte characters gives the column width 12 + 6 = 18, so the `--flagfile` header is padded and no `length_error` arises |
| Flags.MaxNameLength | flags.cc:130-134 | the loop finds the byte size of the longest declared name |
| Listing.Passes | flags.cc:146-163 | a declared flag passes exactly when its shell, external and cli bits equal the arguments and it is not hidden. A name that is only an alias passes exactly when the alias is external and external flags were asked for. Any other name never passes |
| Listing.Emit | flags.cc:146-163 | the records of an ordered map that the skip tests let through, in map order; never more records than the map has |
| Listing.EmitKept | flags.cc:146-163 | every record the loop goes on with is a record of the map and passes the filter |
| Listing.EmitComplete | flags.cc:146-163 | every record of the map that passes the filter is kept |
| Listing.EmitSorted | flags.cc:146-163 | the filter keeps the map's ascending order |
| Listing.Emitted | flags.cc:121-163 | what both listings visit: the filtered re-keyed `GetAllFlags` records, strictly ascending by name |
| Listing.EmittedListing | flags.cc:146-163 | both listings visit exactly the names gflags knows that pass the filter, each once, in strictly ascending order, with gflags' record for each |
| Listing.HiddenNeverListed | flags.cc:149-150 | a hidden declared flag, or a name that is neither declared nor an alias, is never listed, whatever the arguments |
| Flags.AssembleHelpLine | flags.cc:165-178 | the step-by-step construction of one help line, subtracting the name's byte size from the pad, gives `Listing.HelpLine` |
| Listing.HelpLineLayout | flags.cc:165-178 | every help line starts with `    --name`; when the pad is written (0 < pad < 80), the two spaces before the description come after exactly width + 6 bytes |
| Listing.FlagfileLineLayout | flags.cc:139-143 | the `--flagfile` header starts with its option text, and its help text starts after width + 6 characters (bytes, the header being ASCII), lined up with the descriptions |
| Listing.HelpLinesAt | flags.cc:146-178 | help line k belongs to visited record k, with the type gflags reports and the description `getDescription` finds |
| Flags.WriteHelpLines | flags.cc:145-179 | the loop writes the help line of every re-keyed record that passes the filter, in order, and of no other record |
| Listing.HelpTextLines | flags.cc:138-179 | the text is the `--flagfile` header, exactly for `!shell && cli`, then one help line per visited record in order, each with its type and description |
| Flags.Flag.PrintFlags | flags.cc:120-180 | the output is `Listing.Printed`: with column width (byte size of the longest declared name + 6), the header when `!shell && cli`, then the help lines of the visited names; if the header's pad `max - 8 - 5` would be negative, `std::length_error` after the first fragment |
| Flags.Flag.DumpDefaultFlags | flags.cc:182-215 | the output is one `name=default` line per visited record, in the order of `Listing.Emitted` |
| Listing.DumpLinesAt | flags.cc:213 | line k of the dump is `name=default` of record k |
| Listing.DumpedDefault | flags.cc:194-213 | line k of the dump is the k-th visited name, `=`, and the default value `getDefaultValue` reports for it |

## Left out

- gflags itself (`GetCommandLineFlagInfo`, `GetCommandLineOption`, `SetCommandLineOption`, `GetAllFlags`, `FlagRegisterer`) is a foreign library. It is modelled as the abstract store in gflags.dfy, and a known flag always accepts a new value. gflags' parsing and rejection of values is not modelled.
- Sharing of storage between an alias and its target through the gflags registerer is not modelled. An alias reaches its target only through `updateValue` and `getDescription`.
- Real `stdout` and `std::ofstream` I/O is replaced by sequences of lines without line ends. The header fragment written before `std::length_error` counts as one line.
- `Flag::getInt32Value` (flags.cc:58-60) is `strtol` applied to the name. It is foreign numeric parsing and is not modelled.
- The `instance()` singleton (flags.cc:11-14) is replaced by one explicit `Flag` object.
- flagalias.h and flagalias.cc (`lexical_cast`, the `FlagAlias<T>` template and the alias macros) are not part of this model. Only the convention that an alias's description names its target is used.
- There is no concurrency in the registry, and none is modelled.
- Flags.Flag.PrintFlags: does not model the `int` casts of `max` and of the name lengths (flags.cc:167, 172). Widths are unbounded integers, so names of more than `INT_MAX` bytes are outside the model.
- Flags.Flag.PrintFlags: requires, unless the header stops it with `std::length_error` first, that the alias chain of every listed name ends (`Listing.ChainsEnd`). On an alias cycle the source recurses without end, which the model does not follow.
- Registry.State.GetDescription: requires that the alias chain ends (`Terminates`). The non-terminating case is stated instead by `Registry.State.AliasCycleDoesNotTerminate`.
- Flags.Flag.PrintFlags: models the wrapping `size_t` pad `max - 8 - 5` (flags.cc:141) by its outcome, not by its arithmetic. `std::string` throws `std::length_error` for that size, after "    --flagfile PATH" was written.
