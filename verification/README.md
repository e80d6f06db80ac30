# apputils core in Dafny

This project is a Dafny model of the data-handling core of the `apputils` / `appcore` Python
utilities. It covers six pieces:

- **json2obj** (`SerializableObject`). It builds an instance of an annotated class from a
  decoded JSON dictionary. Along the way it resolves `__mapping__` aliases and collects
  `__grouping__` suffix groups. It applies class defaults. Each value goes through a
  transformation, a nested class constructor, a list or dict constructor, or a type check.
  Problems are recorded, and strict classes reject them. `serialize()` turns an instance back
  into a dictionary. It merges class and instance attributes, hides dunder names, ignored
  names and functions, renames mapped attributes, spreads grouped dictionaries and can drop
  falsy values ("minimal").
- **transformations**. This is a first-match registry of serialise/deserialise rules, with the
  built-in `DateTime`, `StringNumber` and `Enum` rules.
- **EnumEx**. Members are looked up by case-insensitive name or by value, and a member prints
  as its lower-case name.
- **Command argument handling**. Two versions are modelled:
  - the `discovery/commands.py` builder and binder: `add_argument`, `add_default_argument`,
    the positional count rules, value conversion, unknown-argument rejection, the signature
    check, injected-argument filtering and the command registry;
  - the older `appcore/utils/import_tools.py` builder and parser, which has different count
    rules and different conversion errors.
- **`ConfigObject`** (`appcore/types/config.py`). It covers keyword initialisation,
  deserialisation with list and nested-class fields, `clean()` and `serialize()`.
- **The curl string helpers**. These are:
  - `CURLCookie` parsing and printing, and `_parse_headers`;
  - `content_encoding`;
  - form-data detection and `__parse_content`;
  - the Basic `Authorization` token, including UTF-8 and base64 as in section 4 of RFC 4648
    and RFC 3629;
  - the header assembly of `curl()`: method check, body, gzip, forced credentials, caller
    headers and cookies.

Python values are the datatype `PyValue.Value`. It has `None`, `bool`, `int`, `float`, `str`,
`list`, `dict` and class instances. A Python `dict` is an association list, `Assoc.Dict`,
searched front to back. Python classes are `Schema.ClassSchema` records: annotations, class
body, `__mapping__`, `__grouping__`, `__ignore__` and strictness. Exceptions are values of
`PyValue.Exc`, and every raising path returns `Err`. Behaviour the model does not cover
returns the error `NotModelled`, so it is never confused with a result. Where a line cannot
work as written (see "## Findings"), the functions involved take an `Outcomes.Check` mode:
`Written` follows the code and `Intended` the evident intent. Functions that receive callables take
Dafny functions: cookie expiry, and user transformations given as `Transformations.Rule`.

## Model

| member | source | states |
|---|---|---|
| Assoc.Get | src/modules/apputils/json2obj/__init__.py:228-240 | a key is found exactly when some entry has it, and the value found is the value of an entry with that key |
| Assoc.GetAt | src/modules/apputils/json2obj/__init__.py:228-240 | the value found is that of the first entry with the key |
| Assoc.Put | src/modules/apputils/discovery/commands.py:88-94 | assigning `d[k] = v` makes `k` read `v` and leaves every other key as it was |
| Assoc.PutKeys | src/modules/apputils/discovery/commands.py:88-94 | after an assignment the keys are the old keys plus `k` |
| Assoc.PutDistinct | src/modules/apputils/discovery/commands.py:88-94 | assignment keeps the keys of a dictionary distinct |
| Assoc.GetLast | src/modules/apputils/discovery/commands.py:294 | a dict built from pairs holds a key exactly when some pair gives it |
| Assoc.GetLastAt | src/modules/apputils/discovery/commands.py:294 | the value a dict built from pairs keeps for a key is that of the last pair giving it |
| Assoc.Update | src/modules/apputils/discovery/commands.py:261 | `a.update(b)`: keys of `b` read their last value in `b`, other keys keep their value in `a` |
| Assoc.UpdateValues | src/modules/apputils/curl/__init__.py:223-225 | every value after `a.update(b)` comes from `a` or from `b`, and `update` keeps distinct keys distinct |
| Text.Upper | src/modules/apputils/enum/__init__.py:25 | `str.upper` keeps the length and upper-cases each ASCII character on its own; `Text.UpperIdempotent` and `Text.UpperOfLower` state what follows for names |
| Text.Lower | src/modules/apputils/enum/__init__.py:35 | `str.lower` keeps the length and lower-cases each ASCII character on its own; `Text.UpperOfLower` states that an upper-case name survives lowering |
| Text.UpperIdempotent | src/modules/apputils/enum/__init__.py:25 | upper-casing twice is upper-casing once |
| Text.UpperOfLower | src/modules/apputils/enum/__init__.py:25-35 | an upper-case name lowered and raised again is itself |
| Text.IndexOf | src/modules/apputils/curl/__init__.py:185 | the first occurrence of a separator, or none when it occurs nowhere |
| Text.JoinSplit | src/modules/apputils/discovery/commands.py:173 | joining the pieces of `split(sep)` with `sep` gives the text back |
| Text.SplitPiecesAreFree | src/modules/apputils/curl/__init__.py:56-62 | no piece of `split(sep)` contains `sep` |
| Text.After | src/modules/apputils/curl/__init__.py:128 | `partition(sep)[2]`: the text after the first separator, or "" without one |
| Text.ParseDecimal | src/modules/apputils/discovery/commands.py:177 | `int()` reads back the decimal rendering of every integer |
| Builtins.Call | src/modules/apputils/discovery/commands.py:177 | calling a built-in class returns an instance of that class, and an instance of it is returned unchanged |
| Builtins.IntOfStr | src/modules/apputils/discovery/commands.py:177 | `int(str(n)) == n` |
| PyValue.PyEqReflexive | src/modules/apputils/enum/__init__.py:30 | Python equality of values is reflexive, so a member's own value finds it |
| Schema.PropertiesOf | src/modules/apputils/json2obj/__init__.py:216-221 | the properties are exactly the class-body entries that are plain values and are neither dunder names nor ignored, each with its class-body value; functions, properties, class methods and static methods are excluded |
| Schema.PropertiesGet | src/modules/apputils/json2obj/__init__.py:216-221 | with distinct class-body names, `properties[k]` is the class-body value of `k` when that entry is a property, and absent otherwise |
| EnumEx.FromName | src/modules/apputils/enum/__init__.py:23-25 | the member named by the upper-cased text, and none exactly when no member has that name |
| EnumEx.FromNameIgnoresCase | src/modules/apputils/enum/__init__.py:25 | a lookup by name does not depend on the case of the text |
| EnumEx.FromNameAgreesUpToCase | src/modules/apputils/enum/__init__.py:25 | two texts equal up to case find the same member |
| EnumEx.FindValue | src/modules/apputils/enum/__init__.py:29-31 | the first member whose value equals the given value |
| EnumEx.FromValue | src/modules/apputils/enum/__init__.py:27-32 | a member is found iff some member's value equals the value, and it is the first such member |
| EnumEx.Str | src/modules/apputils/enum/__init__.py:34-35 | `str(member)` is the lower-case name, equal to the name up to case |
| EnumEx.FromNameOfStr | src/modules/apputils/enum/__init__.py:23-35 | `from_name(str(m))` gives back `m` for an upper-case member name |
| EnumEx.FromValueOfValue | src/modules/apputils/enum/__init__.py:27-32 | every member is found by its own value |
| Transformations.Register | src/modules/apputils/json2obj/transformations.py:68-69 | registering appends the rule and keeps the earlier rules in order |
| Transformations.SerializerFrom | src/modules/apputils/json2obj/transformations.py:76-80 | the first rule whose serialise condition holds, and none when no rule's does |
| Transformations.DeserializerFrom | src/modules/apputils/json2obj/transformations.py:82-86 | the first rule whose deserialise condition holds, and none when no rule's does |
| Transformations.SerializeFirstMatch | src/modules/apputils/json2obj/transformations.py:76-92 | serialisation and chaining use the first matching rule; with none the value is `None` and no chain |
| Transformations.DeserializeFirstMatch | src/modules/apputils/json2obj/transformations.py:82-98 | deserialisation and chaining use the first matching rule; with none the value is `None` and no chain |
| Transformations.RegisterKeepsSerializer | src/modules/apputils/json2obj/transformations.py:68-80 | a rule registered later never takes over a value an earlier rule serialises |
| Transformations.RegisterKeepsDeserializer | src/modules/apputils/json2obj/transformations.py:68-86 | a rule registered later never takes over a value an earlier rule deserialises |
| Transformations.StringNumberDeserialize | src/modules/apputils/json2obj/transformations.py:143-146 | `""` gives `expected_type(0)`, any other value gives `expected_type(value)` or its error, and a number class always gives a value of that class |
| Transformations.EnumSerialize | src/modules/apputils/json2obj/transformations.py:166-167 | an enum member serialises to its value |
| Transformations.EnumDeserialize | src/modules/apputils/json2obj/transformations.py:169-172 | a member is returned iff one has the given value, and it has that value |
| Transformations.EnumRoundTrip | src/modules/apputils/json2obj/transformations.py:166-172 | deserialising a member's value and serialising it again gives the value back |
| Transformations.BuiltInReadsEmptyTextAsZero | src/modules/apputils/json2obj/transformations.py:143-146 | the built-in registry reads `""` as `0` for an `int` and `0.0` for a `float` annotation |
| Transformations.BuiltInDispatch | src/modules/apputils/json2obj/transformations.py:107-186 | the built-in registry picks `DateTime`, `StringNumber`, `Enum` in that order, and never asks for a chain when deserialising |
| Transformations.BuiltInSerialize | src/modules/apputils/json2obj/transformations.py:155-186 | enum members serialise to their value with a chain, and plain data matches no built-in rule |
| Deserialization.ResolveKey | src/modules/apputils/json2obj/__init__.py:228-233 | a mapped field reads its alias when present, else its own name when present, else the alias |
| Deserialization.Unmapped | src/modules/apputils/json2obj/__init__.py:242 | the input keys that are neither annotated nor an alias |
| Deserialization.Claim | src/modules/apputils/json2obj/__init__.py:244-251 | a group takes exactly the leftover keys ending in its suffix, with their input values; the others stay leftover |
| Deserialization.Group | src/modules/apputils/json2obj/__init__.py:243-251 | the keys left unclaimed are exactly the unmapped keys that no group suffix matches |
| Deserialization.LeftKeys | src/modules/apputils/json2obj/__init__.py:243-251 | after the first groups, the keys still unclaimed are the unmapped keys none of those groups' suffixes matches |
| Deserialization.ClaimAtKeys | src/modules/apputils/json2obj/__init__.py:245-248 | a group claims exactly the still-unclaimed keys ending in its suffix, each with its input value |
| Deserialization.GroupKeeps | src/modules/apputils/json2obj/__init__.py:244-251 | grouping never changes an attribute that is not a group name |
| Deserialization.GroupSets | src/modules/apputils/json2obj/__init__.py:244-251 | a group attribute is set to the dict of the keys it claims when that dict is non-empty, and is unchanged otherwise |
| Deserialization.Undeclared | src/modules/apputils/json2obj/__init__.py:161-164 | one undeclared-key problem per leftover key, in order |
| Deserialization.Unannotated | src/modules/apputils/json2obj/__init__.py:253-255 | a missing-annotation problem exactly for each property without an annotation |
| Deserialization.NullForEveryKind | src/modules/apputils/json2obj/__init__.py:189-202 | `None` passes through every kind of field unchanged and without a problem |
| Deserialization.EmptyTextReadsAsZero | src/modules/apputils/json2obj/__init__.py:186-199 | `""` becomes `0` for an `int` field, and `0` conflicts with a `float` or list annotation |
| Deserialization.ConflictingTypeRecorded | src/modules/apputils/json2obj/__init__.py:189-199 | a value of the wrong class becomes `None` and records a conflicting-type problem naming both classes |
| Deserialization.MatchingValueUnchanged | src/modules/apputils/json2obj/__init__.py:207-210 | a value of the annotated class is kept as is |
| Deserialization.UnionOfClasses | src/modules/apputils/json2obj/__init__.py:180-199 | a union keeps a value of one of its classes, and any other value raises `TypeError` |
| Deserialization.NestedClassFromDict | src/modules/apputils/json2obj/__init__.py:189-210 | a dict under a class annotation is built into that class, or its error propagates |
| Deserialization.DictOfTransformsValues | src/modules/apputils/json2obj/__init__.py:205-206 | a typed dict keeps its keys in order and transforms every value by the value annotation |
| Deserialization.PlainDictUnchanged | src/modules/apputils/json2obj/__init__.py:205-206 | an untyped dict annotation keeps the dict unchanged |
| Deserialization.ListOfConstructsEach | src/modules/apputils/json2obj/__init__.py:203-204 | a list field succeeds iff every element can be constructed, and holds one constructed element per input element |
| Deserialization.AbsentKeyTakesDefault | src/modules/apputils/json2obj/__init__.py:235-237 | a missing key takes the class default, and without one raises `KeyError` |
| Deserialization.PresentKeyIsTransformed | src/modules/apputils/json2obj/__init__.py:239-240 | a present key's value is transformed by the field annotation |
| Deserialization.SkippedFields | src/modules/apputils/json2obj/__init__.py:225-226 | dunder and ignored annotations are skipped |
| Deserialization.FieldsStoreValues | src/modules/apputils/json2obj/__init__.py:224-240 | every processed annotation ends up set to its computed value |
| Deserialization.StrictAggregates | src/modules/apputils/json2obj/__init__.py:253-255 | a strict class succeeds iff there are no conflicts, no unannotated properties and no unclaimed keys; otherwise it fails with those problems |
| Deserialization.NonStrictKeepsProblems | src/modules/apputils/json2obj/__init__.py:189-199 | a non-strict class builds the object and keeps the problems it found |
| Deserialization.New | src/modules/apputils/json2obj/__init__.py:126-159 | a same-class source is copied whatever the keyword arguments, an instance of another class or any other non-dict, non-text value fails the `assert` with `AssertionError`, no data and no keyword arguments give an instance without attributes, and a dict without keyword arguments is read as it is |
| Deserialization.NewMerges | src/modules/apputils/json2obj/__init__.py:148-159 | keyword arguments given with a dict or with no data are merged in first: the data read holds each keyword argument with its last value and every other key of the dict with its own value |
| Deserialization.NewIsUpdate | src/modules/apputils/json2obj/__init__.py:148-159 | building from a dict with keyword arguments is building from the dict updated with them |
| Deserialization.FromDictBuilds | src/modules/apputils/json2obj/__init__.py:212-255 | a successful build is an instance of the class itself, and a strict class that builds keeps no problem |
| RoundTrip.FlatKwargs | src/modules/apputils/json2obj/__init__.py:126-159 | for a flat class, `Cls(d, **kwargs)` sets every keyword argument to its last given value and every other attribute to its value in `d` |
| Deserialization.InstantiateIsNew | src/modules/apputils/json2obj/__init__.py:126-159 | a nested class is built the way its constructor builds it from a dict |
| Serialization.Merge | src/modules/apputils/json2obj/__init__.py:275-276 | instance attributes override class attributes, and class attributes fill the rest |
| Serialization.Visible | src/modules/apputils/json2obj/__init__.py:279-287 | exactly the attributes that are not dunder names, ignored names or functions are shown |
| Serialization.Aliased | src/modules/apputils/json2obj/__init__.py:289-290 | an alias key is produced exactly for each mapped attribute that is present, and every value produced is an attribute value |
| SerializationFacts.AliasedValue | src/modules/apputils/json2obj/__init__.py:289-290 | an alias that no later mapping entry reuses carries the value of its mapped attribute |
| Serialization.GroupOf | src/modules/apputils/json2obj/__init__.py:292-295 | a group attribute is spread only when it holds a dict |
| Serialization.GatherDepth | src/modules/apputils/json2obj/__init__.py:274-297 | the dictionary gathered from an instance is shallower than the instance, so nested serialisation ends |
| SerializationFacts.VisibleGet | src/modules/apputils/json2obj/__init__.py:279-287 | for any class and distinct attribute names, a key is kept with its merged value iff that value passes the filter |
| SerializationFacts.SpreadKeeps | src/modules/apputils/json2obj/__init__.py:292-295 | a key that no group spreads keeps the value it had before grouping |
| SerializationFacts.SpreadLast | src/modules/apputils/json2obj/__init__.py:292-295 | a key of a grouped dict takes that dict's value when no later group spreads it |
| SerializationFacts.GatherSteps | src/modules/apputils/json2obj/__init__.py:274-297 | each output key reads as the spread, renamed and filtered attributes, and a key no group spreads reads as before grouping |
| SerializationFacts.ShowsVisibleFields | src/modules/apputils/json2obj/__init__.py:275-287 | for any mapping and grouping, a key that is no alias of a present attribute and is spread by no group is output iff its merged value passes the filter, and with that value |
| SerializationFacts.InstanceValueShown | src/modules/apputils/json2obj/__init__.py:275-276 | for any mapping and grouping, a visible instance attribute that no alias or group overrides is output with the instance value |
| SerializationFacts.HiddenNamesNotShown | src/modules/apputils/json2obj/__init__.py:280-285 | for any mapping and grouping, dunder names, ignored names and class functions that no alias or group produces never appear |
| SerializationFacts.AliasShown | src/modules/apputils/json2obj/__init__.py:289-290 | in any alias map, a present mapped attribute whose alias is unique and not spread appears under its alias with its value, and not under its own name |
| SerializationFacts.GroupSpread | src/modules/apputils/json2obj/__init__.py:292-295 | in any grouping, a key of a grouped dict appears at top level with that dict's value unless a later group also spreads it |
| Serialization.SerializeValue | src/modules/apputils/json2obj/__init__.py:257-272 | a dict is serialised to a dict and a list, tuple or set to a list |
| Serialization.Serialize | src/modules/apputils/json2obj/__init__.py:274-297 | `serialize()` of an instance always returns a dict |
| SerializationFacts.DataUnchanged | src/modules/apputils/json2obj/__init__.py:257-272 | plain data serialises to itself |
| SerializationFacts.EntryOrigin | src/modules/apputils/json2obj/__init__.py:264-270 | every output entry comes from an input entry, truthy under `minimal`, with its value serialised |
| SerializationFacts.KeptKeys | src/modules/apputils/json2obj/__init__.py:264-270 | an output key is kept iff an input entry has it, and under `minimal` a truthy value |
| SerializationFacts.MinimalKeepsTruthy | src/modules/apputils/json2obj/__init__.py:264-270 | a serialised dict keeps a key iff it has a truthy value, or any value without `minimal` |
| RoundTrip.Accepted | src/modules/apputils/json2obj/__init__.py:189-210 | a value its annotation accepts is transformed to itself without problems |
| RoundTrip.FlatBuild | src/modules/apputils/json2obj/__init__.py:212-255 | a flat class builds from a dict without problems, and each attribute holds the input value |
| RoundTrip.ReadFields | src/modules/apputils/json2obj/__init__.py:224-240 | reading readable annotations records no problem and stores each at its wire name's value |
| RoundTrip.FlatGather | src/modules/apputils/json2obj/__init__.py:274-297 | serialising such an instance gives back exactly the input keys and values |
| RoundTrip.FlatRoundTrip | src/modules/apputils/json2obj/__init__.py:126-297 | `Cls(d).serialize()` reads back as `d` for a flat class |
| RoundTrip.UnionFieldRoundTrip | tests/json2obj/test_union_types.py:109-111 | the strict class with field `value: str \| int = None` round-trips `{"value": "roundtrip"}` |
| MappedRoundTrip.MatchedBuild | src/modules/apputils/json2obj/__init__.py:212-255 | for data matching a class with aliases and groups, building succeeds without problems; each field holds the value under its wire name and each group holds exactly the keys it collects |
| MappedRoundTrip.MatchedGather | src/modules/apputils/json2obj/__init__.py:274-297 | serialising such an instance succeeds |
| MappedRoundTrip.FieldBack | src/modules/apputils/json2obj/__init__.py:228-240 | a field that is not renamed serialises back to its input value |
| MappedRoundTrip.AliasBack | src/modules/apputils/json2obj/__init__.py:228-233 | a renamed field serialises back under its alias, with the input value under that alias |
| MappedRoundTrip.CollectedBack | src/modules/apputils/json2obj/__init__.py:244-251 | an undeclared key that a group collected is spread back at top level with its input value |
| MappedRoundTrip.AbsentBack | src/modules/apputils/json2obj/__init__.py:274-297 | no key absent from the input appears in the output |
| MappedRoundTrip.MatchedKeys | src/modules/apputils/json2obj/__init__.py:274-297 | the serialised instance reads as the input data for every key |
| MappedRoundTrip.MatchedRoundTrip | src/modules/apputils/json2obj/__init__.py:126-297 | `Cls(d).serialize()` reads back as `d` for any class with aliases and groups that `d` matches |
| MappedRoundTrip.DocumentedRoundTrip | src/modules/apputils/json2obj/__init__.py:76-113 | the two documented examples in one class, with alias `a:b` and group `_url` round-trips `{"a:b": "v", "a_url": "x", "b_url": "y"}` |
| ArgumentConversion.Convert | src/modules/apputils/discovery/commands.py:171-177 | `list` splits text on commas and calls `list(v)` on anything else; `bool` of empty text is `True`, of other sized values is `bool(v)`, and of a value without length raises `TypeError`; other classes are called; a result always has the requested class |
| ArgumentConversion.CommaList | src/modules/apputils/discovery/commands.py:172-173 | one list element per comma-separated piece, in order |
| ArgumentConversion.CommaListJoins | src/modules/apputils/discovery/commands.py:172-173 | the pieces of a list argument joined with commas give the text back |
| ArgumentConversion.EveryTextIsTrue | src/modules/apputils/discovery/commands.py:174-177 | every text given for a `bool` argument, `"false"` included, becomes `True` |
| ArgumentConversion.IntegersReadBack | src/modules/apputils/discovery/commands.py:177 | a decimal text converts back to its integer |
| ArgumentConversion.ConvertKeepsOwnType | src/modules/apputils/discovery/commands.py:177 | a value already of the argument class is kept |
| Commands.AddArgument | src/modules/apputils/discovery/commands.py:66-95 | fails on a disallowed class, on a default without a class and on a default of the wrong class, and succeeds otherwise; stores the item under its name and alias, with a `False` default for `bool`; everything else is unchanged |
| Commands.AddPositional | src/modules/apputils/discovery/commands.py:113-130 | a missing class raises `AttributeError`; succeeds iff the class is allowed, a default follows any earlier default and fits the class; stores the item and records whether a default was used |
| Commands.AddPositionalKeepsOrder | src/modules/apputils/discovery/commands.py:120-130 | positional arguments with a default always come after those without one |
| Commands.ConvertPositional | src/modules/apputils/discovery/commands.py:208-215 | conversion `TypeError`/`ValueError` become an invalid-type error, other errors propagate, and an untyped argument is passed through |
| Commands.TransformPositional | src/modules/apputils/discovery/commands.py:179-199 | nothing expected and nothing given binds nothing, and a count outside the rules raises the positional-count error |
| Commands.PositionalCountRule | src/modules/apputils/discovery/commands.py:187-199 | on success the count matches exactly without defaults, is at least the non-default count with defaults, and is at most the declared count under `fail_on_unknown` |
| Commands.BoundNames | src/modules/apputils/discovery/commands.py:201-212 | the bound names are exactly the declared positional names |
| Commands.PositionalValues | src/modules/apputils/discovery/commands.py:201-215 | each positional argument is bound to its converted given value, or to its converted default |
| Commands.BoundValues | src/modules/apputils/discovery/commands.py:201-215 | the same, for any conversion |
| Commands.Unknown | src/modules/apputils/discovery/commands.py:223-224 | unknown names are the given names that are neither a declared alias nor injected |
| Commands.NamedWith | src/modules/apputils/discovery/commands.py:228-245 | any declared, non-injected argument whose read fails makes the whole binding fail |
| Commands.BindNamed | src/modules/apputils/discovery/commands.py:228-245 | a missing argument without a default makes the binding fail |
| Commands.NamedValue | src/modules/apputils/discovery/commands.py:232-242 | a missing argument takes its default or is reported as required; a given one is converted when typed and errors propagate |
| Commands.TransformNamed | src/modules/apputils/discovery/commands.py:219-245 | with `fail_on_unknown` any unknown name is rejected and listed; otherwise the arguments are bound |
| Commands.NamedValues | src/modules/apputils/discovery/commands.py:228-245 | every non-injected named argument is bound under its internal name to its read value |
| Commands.ReadValues | src/modules/apputils/discovery/commands.py:228-245 | the same, for any reader |
| Commands.ReadNames | src/modules/apputils/discovery/commands.py:228-245 | the bound names are exactly those of the non-injected declarations |
| Commands.SetArgument | src/modules/apputils/discovery/commands.py:256-270 | succeeds iff both bindings succeed and the signature check passes, with named values overriding positional ones; otherwise returns the positional error, else the named error, else the signature-mismatch error |
| Commands.SignatureMeansAllBound | src/modules/apputils/discovery/commands.py:265 | the parameter-count check passes iff every non-injected parameter is bound |
| Commands.FilterInjected | src/modules/apputils/discovery/commands.py:288-294 | no injections give `None`; otherwise exactly the injected values the function accepts |
| Commands.CallArguments | src/modules/apputils/discovery/commands.py:296-303 | bound arguments win, and injected values fill accepted parameters |
| Commands.Lookup | src/modules/apputils/discovery/commands.py:320-324 | an unknown command raises `NoCommandException`, otherwise the registered command is returned |
| Commands.Inject | src/modules/apputils/discovery/commands.py:353-356 | an injected command is found under its name and other commands are unchanged |
| ModuleArguments.AddArgument | appcore/utils/import_tools.py:44-64 | succeeds iff the class is allowed and the default fits; a missing class raises `AttributeError`; stores the item with a `False` default for `bool` |
| ModuleArguments.AddPositional | appcore/utils/import_tools.py:80-100 | succeeds iff the class is allowed, no earlier argument has a default and the default fits; appends the item |
| ModuleArguments.EmptyHasNoDefault | appcore/utils/import_tools.py:36-42 | a new builder has no positional default |
| ModuleArguments.AddPositionalKeepsOneDefault | appcore/utils/import_tools.py:91-100 | only the last positional argument can have a default |
| ModuleArguments.AddArgumentKeepsOneDefault | appcore/utils/import_tools.py:61-64 | adding a named argument keeps that invariant |
| ModuleArguments.ConvertPositional | appcore/utils/import_tools.py:171-175 | conversion `TypeError`/`ValueError` become an invalid-type error and other errors propagate |
| ModuleArguments.ParsePositional | appcore/utils/import_tools.py:141-177 | `None` raises `TypeError` from `len`; a count outside the rules raises the count error; otherwise every declared argument is bound |
| ModuleArguments.CountRule | appcore/utils/import_tools.py:151-161 | on success either every positional argument is given, or all but the last one, and that one has a default |
| ModuleArguments.BoundNames | appcore/utils/import_tools.py:163-173 | the bound names are exactly the declared positional names |
| ModuleArguments.PositionalValues | appcore/utils/import_tools.py:163-175 | each positional argument is bound to its converted sample value or its converted default |
| ModuleArguments.BoundValues | appcore/utils/import_tools.py:163-175 | the same, for any conversion |
| ModuleArguments.ExtraValuesIgnored | appcore/utils/import_tools.py:163-169 | sample values beyond the declared arguments are never read |
| ModuleArguments.NamedValue | appcore/utils/import_tools.py:186-198 | a missing key takes the default or is reported as required; a present one is converted and errors propagate |
| ModuleArguments.NamedWith | appcore/utils/import_tools.py:186-199 | any argument whose read fails makes the whole parse fail |
| ModuleArguments.ParseNamed | appcore/utils/import_tools.py:179-199 | a missing argument without a default makes the parse fail |
| ModuleArguments.NamedValues | appcore/utils/import_tools.py:186-199 | every declared argument is bound to its read value |
| ModuleArguments.ReadValues | appcore/utils/import_tools.py:186-199 | the same, for any reader |
| ModuleArguments.ReadNames | appcore/utils/import_tools.py:186-199 | the bound names are exactly the declared names |
| Config.Initialize | appcore/types/config.py:21-26 | keyword initialisation sets exactly the declared names (and inherited method names) to their last given value |
| Config.New | appcore/types/config.py:12-19 | keyword arguments take precedence; without them the object is deserialised |
| Config.Construct | appcore/types/config.py:28-34 | a successful deserialisation gives an instance of the requested class |
| Config.Deserialize | appcore/types/config.py:49-69 | the names set are distinct, and a value that is not a dict sets nothing |
| Config.Entries | appcore/types/config.py:53-69 | the attributes set by deserialisation have distinct names |
| Config.ConstructList | appcore/types/config.py:58-65 | a class-list field holds one constructed instance per input element |
| Config.Clean | appcore/types/config.py:36-47 | as written it raises `AttributeError` from `types.ClassType`; as intended every declared name is set to its placeholder or kept value |
| Config.PlaceholdersGet | appcore/types/config.py:41-47 | the point-wise value of each name after `clean()` |
| Config.Serialize | appcore/types/config.py:71-91 | the output keys are exactly the attributes whose value is not `None` |
| Config.SerializeValue | appcore/types/config.py:77-89 | a non-empty list is serialised item by item, a nested instance becomes a dict, and anything else is kept |
| Config.SerializeItems | appcore/types/config.py:78-85 | each list item is serialised when it is an instance and kept otherwise |
| ConfigFacts.AsWrittenNeverBuilds | appcore/types/config.py:28-47 | as written, no input other than `None` or an instance can be deserialised |
| ConfigFacts.EmptyDictAsWritten | appcore/types/config.py:41-47 | `{}` fails as written and, as intended, builds an instance with no attribute set |
| ConfigFacts.UnknownKeyRejected | appcore/types/config.py:54-56 | a key the class does not declare makes deserialisation fail |
| ConfigFacts.ListFieldShapes | appcore/types/config.py:58-65 | a class-list field succeeds iff every element builds, and a single value is wrapped in a one-element list |
| ConfigFacts.PlainCopies | appcore/types/config.py:66-69 | a plain field copies its value |
| ConfigFacts.FlatEntries | appcore/types/config.py:53-69 | for a class of plain fields every key ends with its last given value |
| ConfigFacts.FlatPlaceholders | appcore/types/config.py:41-47 | `clean()` leaves the attributes of a class of plain fields unchanged |
| ConfigFacts.SerializeGet | appcore/types/config.py:76-89 | the point-wise value of each key after `serialize()` |
| ConfigFacts.DataSerializesToItself | appcore/types/config.py:77-89 | plain data serialises to itself |
| ConfigFacts.FlatRoundTrip | appcore/types/config.py:12-91 | `C(serialized_obj=d).serialize()` gives back every non-`None` key of `d` with its value |
| Curl.OptionPair | src/modules/apputils/curl/__init__.py:62 | a cookie option is the name before the first `=` and the text up to the next `=` |
| Curl.CookieOptionKeys | src/modules/apputils/curl/__init__.py:60-62 | the option names are exactly those of the segments after the value that contain `=` |
| Curl.CookieOptionLastWins | src/modules/apputils/curl/__init__.py:62 | a repeated option keeps its last value |
| Curl.ParseCookie | src/modules/apputils/curl/__init__.py:41-62 | the cookie value is the text before the first `;`, and an empty value or one without `;` has no options |
| Curl.CookieText | src/modules/apputils/curl/__init__.py:87-88 | a cookie prints as `name=value` |
| Curl.CookieTextReadsBack | src/modules/apputils/curl/__init__.py:87-88 | a printed cookie split at its first `=` gives the same name and value |
| Curl.ParseHeadersCollects | src/modules/apputils/curl/__init__.py:139-151 | a header seen once keeps its text, and a repeated one collects all its texts in order |
| Curl.ContentEncoding | src/modules/apputils/curl/__init__.py:119-130 | without a `Content-Encoding` header the encoding is `utf-8`, and a repeated header raises |
| Curl.LastCharset | src/modules/apputils/curl/__init__.py:126-128 | the charset is taken from the last segment that mentions it |
| Curl.FormPairIn | src/modules/apputils/curl/__init__.py:251 | the form pattern matches iff some `=` follows a character other than `=` |
| Curl.DetectStrType | src/modules/apputils/curl/__init__.py:246-255 | text is form data exactly when the form pattern matches, and plain text otherwise |
| Curl.ParseContent | src/modules/apputils/curl/__init__.py:258-271 | text is UTF-8 encoded with a content type carrying its detected kind; bytes pass through without headers |
| Curl.Token | src/modules/apputils/curl/__init__.py:228-231 | the token is the base64 of the UTF-8 of `user:password`, with no newline |
| Curl.AuthHeader | src/modules/apputils/curl/__init__.py:228-232 | the only header is `Authorization: Basic <token>` |
| Curl.TokenReadsBack | src/modules/apputils/curl/__init__.py:228-232 | decoding the token gives back `user:password` |
| Curl.AuthHeadersAsWritten | src/modules/apputils/curl/__init__.py:218-226 | forced credentials without headers raise `TypeError` |
| Curl.AuthHeaders | src/modules/apputils/curl/__init__.py:218-226 | unforced credentials give their headers; forced ones give the caller's headers plus `Authorization` |
| Curl.AuthHeadersAgree | src/modules/apputils/curl/__init__.py:218-226 | the corrected headers equal the written ones wherever the written code does not raise |
| Curl.BodyStage | src/modules/apputils/curl/__init__.py:329-339 | only `POST`/`PUT` with data send a body, with its byte length and content type |
| Curl.GzipStage | src/modules/apputils/curl/__init__.py:341-346 | gzip adds the `Accept-Encoding` header and touches nothing else |
| Curl.LiveCookiesAre | src/modules/apputils/curl/__init__.py:360 | the cookies sent are exactly the printed unexpired cookies |
| Curl.CookieJoin | src/modules/apputils/curl/__init__.py:361-364 | the cookie line is the live cookies followed by the pieces of the existing cookie header |
| Curl.CookieStage | src/modules/apputils/curl/__init__.py:359-364 | with cookies and other headers, `cookie` holds the joined line and nothing else changes |
| Curl.BuildRequest | src/modules/apputils/curl/__init__.py:320-327 | an unknown method raises `IOError` naming it |
| Curl.Finish | src/modules/apputils/curl/__init__.py:223-224 | header assembly never changes the body, and as written forced credentials without headers raise `TypeError` |
| Curl.AuthStage | src/modules/apputils/curl/__init__.py:353-354 | credentials that are not forced leave the headers unchanged (forced ones are reached only where reading `auth.headers` does not raise) |
| Curl.AuthStageGet | src/modules/apputils/curl/__init__.py:218-226 | on the path where `auth.headers` does not raise, forced credentials set `Authorization` and their own headers, and keep the rest |
| Curl.CallerStage | src/modules/apputils/curl/__init__.py:356-357 | no caller headers leave the headers unchanged |
| Curl.CallerStageGet | src/modules/apputils/curl/__init__.py:356-357 | caller headers override, and the rest are kept |
| Curl.LaterStages | src/modules/apputils/curl/__init__.py:353-357 | on the path where `auth.headers` does not raise, headers neither credentials nor caller set are kept, and a preset `cookie` comes from them |
| Curl.RequestBuilt | src/modules/apputils/curl/__init__.py:320-364 | a known method with text or bytes data builds a request iff reading the credentials does not raise, and raises `TypeError` otherwise |
| Curl.FinishKeeps | src/modules/apputils/curl/__init__.py:341-364 | a body header no later stage touches reaches the request |
| Curl.TextBodyHeaders | src/modules/apputils/curl/__init__.py:329-339 | a text body is sent as UTF-8 with its length and detected content type, whenever reading the credentials does not raise |
| Curl.NoBodyWithoutPost | src/modules/apputils/curl/__init__.py:335 | `GET` and `DELETE` send no body and no length, and build a request iff reading the credentials does not raise |
| Curl.GzipAcceptedByDefault | src/modules/apputils/curl/__init__.py:341-346 | with gzip on, the request accepts gzip unless the caller overrides it |
| Curl.CallerHeadersWin | src/modules/apputils/curl/__init__.py:356-357 | a caller header other than `cookie` reaches the request with the caller's value |
| Curl.CookieHeader | src/modules/apputils/curl/__init__.py:359-364 | the `cookie` header is the live cookies joined with any preset cookie header |
| Curl.CookiesNeedAnotherHeader | src/modules/apputils/curl/__init__.py:359 | cookies alone, with no other header, are not sent |
| Curl.ForcedAuthRaises | src/modules/apputils/curl/__init__.py:218-226 | as written, forced credentials without headers make every `curl()` request raise `TypeError`; as intended the request is built |
| Curl.ForcedAuthSent | src/modules/apputils/curl/__init__.py:218-232 | as intended, forced credentials without headers send `Authorization: Basic <token>` unless the caller sets it |
| Utf8.EncodeChar | src/modules/apputils/curl/__init__.py:243 | a character takes 1 to 4 bytes by its code point, with the lead and continuation shapes of RFC 3629 |
| Utf8.Encode | src/modules/apputils/curl/__init__.py:243 | the encoding is at least as long as the text, and as long for ASCII text |
| Utf8.DecodeChar | src/modules/apputils/curl/__init__.py:230 | a decoded character consumes exactly its encoded width |
| Utf8.DecodeEncodeChar | src/modules/apputils/curl/__init__.py:229-230 | decoding the bytes of a character gives the character back |
| Utf8.DecodeEncode | src/modules/apputils/curl/__init__.py:229-230 | decoding the UTF-8 encoding of any text gives the text back |
| Base64.Encode | src/modules/apputils/curl/__init__.py:229 | the encoding has 4 characters per started group of 3 bytes, all from the alphabet |
| Base64.DecodeEncode | src/modules/apputils/curl/__init__.py:229 | decoding the encoding gives the bytes back |
| Base64.EncodeAppend | src/modules/apputils/curl/__init__.py:229 | encoding is compositional over whole 3-byte groups |
| Base64.RemoveNewlines | src/modules/apputils/curl/__init__.py:231 | `replace('\n', '')` keeps every other character and no newline |
| Base64.EncodeLinesJoined | src/modules/apputils/curl/__init__.py:229-231 | removing the line breaks of `encodebytes` gives the plain encoding |
| Base64.EncodeNoNewline | src/modules/apputils/curl/__init__.py:229-231 | the plain encoding holds no newline |

## Left out

- Reading JSON or YAML text and writing it (`json.loads`, `yaml`, `dump`, `to_json`): the model
  starts and ends at decoded Python values.
- Python reflection: the order of `dir()`, `get_type_hints`, inherited class attributes and
  inheritance are replaced by the explicit `ClassSchema` record.
- `typing.Union` / `__origin__` introspection: a union annotation is modelled as the list of its
  classes.
- `DateTime` conversion: `datetime.timestamp` and `fromtimestamp` depend on the clock's time
  zone. The rule's conditions are modelled, and its conversions return `NotModelled`.
- Other conversions return `NotModelled`: `float()` of text that is not an integer literal,
  `int()` of non-ASCII digits, `str()` of floats and containers, complex numbers, and
  constructors of classes outside the schema table.
- Set iteration order: the names in `missing_definitions` and in the unknown-argument message
  come out in an order Python does not fix, and the model uses input order.
- Class defaults that are themselves instances (`PlainDefaults` is required by the round-trip
  lemmas only).
- A `staticmethod` in a class body passes the filter of `serialize()`, because lines 283-284
  do not list it. The model lets it through and then reports the callable as `NotModelled`.
- The state of a builder after a failed call: the model returns an error and discards the builder.
- Exception message texts, except the unknown-method message of `curl()`.
- `execute`, `execute_async`, module discovery, `add`, `ModulesDiscovery.main`, `collect` and
  `generate_help`: these perform imports, calls and output.
- Everything on the network side of `curl()`: the opener, handler chain, redirect filter,
  timeout, URL parameters (`urlencode`), response decoding (`__decode_response`, gzip and
  deflate) and the async variant.
- JSON bodies: for a dict, list, set or tuple, `__parse_content` calls `json.dumps`. That call
  is not modelled, and such a body returns `NotModelled`.
- Cookie expiry: `strptime` of `expires` and `is_expired` use the clock, so expiry is a
  parameter.
- `response_cookies`: only its split at the first `=` is modelled, as `Curl.CookieTextReadsBack`.
- The `content_encoding` cache: the property is modelled as if no earlier value was stored.
- `str.upper` and `str.lower` are modelled for ASCII letters only.
- The `Accept-Encoding` header is never set before the gzip stage. The branch that handles an
  existing one is therefore not reachable, and the model states only the reachable case.
- Commands.TransformPositional: states the early returns only. The bound values are stated by
  `Commands.PositionalCountRule` and `Commands.PositionalValues`.
- Config.Construct: states only the class of the result. Its attributes are stated by
  `ConfigFacts.FlatEntries`, `ConfigFacts.ListFieldShapes` and `ConfigFacts.FlatRoundTrip`.
- Config.Entries: states only that the names are distinct. The values are stated by
  `ConfigFacts.FlatEntries`.
- Curl.ContentEncoding: states the default and the error. The choice of charset is stated by
  `Curl.LastCharset`.
- Curl.BuildRequest: states the method error only. The forced-credential `TypeError` is stated
  by `Curl.RequestBuilt` and `Curl.ForcedAuthRaises`, and the headers and body by
  `Curl.TextBodyHeaders`, `Curl.CookieHeader`, `Curl.CallerHeadersWin` and
  `Curl.GzipAcceptedByDefault`.
- Curl.Finish: states that the body is unchanged and the forced-credential `TypeError`. The
  headers are stated by the stage lemmas.
- ModuleArguments.NamedWith: `parse_arguments` reads `conf.get(name)` and treats a `KeyError` as a missing
  argument. The `Configuration` class is not part of this model, so the configuration is a
  dictionary whose missing key is taken to raise `KeyError`.
- Deserialization.New: Python object identity is not modelled. Line 152 updates the caller's own
  non-empty dict in place with the keyword arguments, so the caller sees the merged data afterwards;
  the model builds a fresh merged value and leaves the caller's data as it was. A same-class source
  is returned as it is where lines 129-133 make a deep copy, which is the same value here.
- Config.New: Python object identity is not modelled. `ConfigObject` values are immutable records,
  so `Config.Construct` copies the attributes of a same-class source where line 31 shares its
  `__dict__`, and `PyValue.PyEq` compares instances by structure, not by identity.
- Serialization.Aliased: states which alias keys are produced, and that every value comes from
  an attribute. The value under each alias is stated by `SerializationFacts.AliasedValue`.
- Deserialization.Group: states the keys left unclaimed. The value each group attribute receives
  is stated by `Deserialization.GroupSets`, and the untouched attributes by
  `Deserialization.GroupKeeps`.
- MappedRoundTrip.MatchedRoundTrip: covers data that the class reads without a problem. There
  are no ignored names, and class defaults are plain values hidden from `serialize()` unless
  annotated. Every input key is a field, an alias or a grouped key, and every field is present
  under its alias or name with a value its annotation accepts unchanged.
- Utf8.Encode: states length bounds only. Content is stated by `Utf8.EncodeChar` and
  `Utf8.DecodeEncode`.

## Findings

| source | as written | input that shows it | evidently intended | confidence | as-written member | corrected member |
|---|---|---|---|---|---|---|
| appcore/types/config.py:43-46 | `clean()` tests `isinstance(attr, (type, types.ClassType))`, and `types.ClassType` does not exist in Python 3, so every call that reaches it raises `AttributeError` (line 66 does the same for a class-typed field) | `C(serialized_obj={})` for any `ConfigObject` subclass | test only `isinstance(attr, type)` | not executed | ConfigFacts.EmptyDictAsWritten | ConfigFacts.FlatRoundTrip |
| src/modules/apputils/curl/__init__.py:223-224 | with `force=True` and the default `headers=None`, `ret_temp.update(None)` raises `TypeError`, so `curl()` with such credentials raises at line 354 before any request is made | `curl("http://x", auth=CURLAuth("u", "p", force=True))` | treat absent headers as `{}`, giving only the `Authorization` header | not executed | Curl.ForcedAuthRaises | Curl.ForcedAuthSent |
