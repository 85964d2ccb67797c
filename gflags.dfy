/**
 The part of the gflags library that the registry calls, as an abstract
 store: every flag gflags knows has a type, a default value, a current value
 and an "is default" bit, and `GetAllFlags` enumerates the known flags in
 some order.
 */
module Gflags {

  datatype Option<T> = None | Some(value: T)

  /** What gflags keeps about one flag. */
  datatype Entry = Entry(typeName: string, defaultValue: string, currentValue: string, isDefault: bool)

  /** `CommandLineFlagInfo`, restricted to the fields the registry reads. */
  datatype CommandLineFlagInfo =
    CommandLineFlagInfo(name: string, typeName: string, defaultValue: string, currentValue: string, isDefault: bool)

  /** The flag store. `listing` is the order in which `GetAllFlags` reports
      the flags; a name may occur in it more than once. */
  datatype Store = Store(entries: map<string, Entry>, listing: seq<string>)
  {
    /** `GetAllFlags` reports exactly the flags the store knows. */
    ghost predicate Valid()
    {
      forall n :: n in entries <==> n in listing
    }

    function InfoOf(name: string): (r: CommandLineFlagInfo)
      requires name in entries
      ensures r.name == name
    {
      var e := entries[name];
      CommandLineFlagInfo(name, e.typeName, e.defaultValue, e.currentValue, e.isDefault)
    }

    /** `GetCommandLineFlagInfo(name, &info)`: false (None) for an unknown name. */
    function GetCommandLineFlagInfo(name: string): (r: Option<CommandLineFlagInfo>)
      ensures r.Some? <==> name in entries
      ensures r.Some? ==> r.value == InfoOf(name)
    {
      if name in entries then Some(InfoOf(name)) else None
    }

    /** `GetCommandLineOption(name, &value)`: the found bit, and the output
        argument, which is left as it was for an unknown name. */
    function GetCommandLineOption(name: string, value: string): (r: (bool, string))
      ensures r.0 <==> name in entries
      ensures r.1 == if name in entries then entries[name].currentValue else value
    {
      if name in entries then (true, entries[name].currentValue) else (false, value)
    }

    /** `SetCommandLineOption(name, value)`: a known flag takes the value and
        is no longer at its default; an unknown name changes nothing. */
    function SetCommandLineOption(name: string, value: string): (r: Store)
      ensures r.listing == listing && r.entries.Keys == entries.Keys
      ensures Valid() ==> r.Valid()
      ensures name in entries ==> r.entries[name].currentValue == value && !r.entries[name].isDefault
      ensures name in entries ==>
        r.entries[name].typeName == entries[name].typeName && r.entries[name].defaultValue == entries[name].defaultValue
      ensures forall n :: n in entries && n != name ==> r.entries[n] == entries[n]
    {
      if name in entries then
        this.(entries := entries[name := entries[name].(currentValue := value, isDefault := false)])
      else
        this
    }

    /** `GetAllFlags(&info)`: one record per position of `listing`. */
    function GetAllFlags(): (r: seq<CommandLineFlagInfo>)
      requires Valid()
      ensures |r| == |listing|
      ensures forall i :: 0 <= i < |r| ==> listing[i] in entries && r[i] == InfoOf(listing[i])
    {
      seq(|listing|, i requires 0 <= i < |listing| => InfoOf(listing[i]))
    }
  }
}
