# WebApi.Hal `Representation`: the serialization-time HAL transform

This project models the part of WebApi.Hal that turns a resource object
(`Representation`) into HAL shape just before Json.NET writes it, and
undoes the change just after:

- `RepopulateHyperMedia` runs the subclass hook `CreateHypermedia` and puts
  a `{rel: "self", href: Href}` link in front of the links when the hook
  produced none.
- `OnSerialize` clears the per-instance bookkeeping dictionary, repopulates
  the links and, only when the pass runs under the HAL resource converter,
  walks the public properties. Every property whose declared type is a
  resource or an enumerable of resources (`IsEmbeddedResourceType`) and
  whose value is not null is recorded in the dictionary. Its resources go
  into a working list of `(GetRel(...), resource)` pairs, and the property
  is set to null. The working list is grouped by relation name with
  `ToLookup` into the private `_embedded` property, which is null when the
  list is empty.
- `GetRel` picks the relation name of an embedded resource: the property's
  `[JsonProperty]` name when the attribute is present, verbatim; else the
  resource's own `Rel` when it is non-empty; else `"unknownRel-"` followed
  by its type name.
- `OnSerialized`, under the converter only, writes every recorded value
  back into its property. It does not clear the dictionary.

Modules:

- `Wrappers` (`wrappers.dfy`): `Option`, and `NString`, a .NET string that
  may be null.
- `Links` (`links.dfy`): links and the self-link insertion.
- `Lookup` (`lookup.dfy`): `ToLookup` over (key, element) pairs, with a
  filter (`Select`) as its reference definition.
- `Representation` (`representation.dfy`): the resource record, `GetRel`,
  `IsEmbeddedResourceType`, the property scan, `OnSerialize`,
  `OnSerialized`.
- `Properties` (`properties.dfy`): properties relating several calls.

Reflection is replaced by an explicit sequence of property slots. Each slot
has a declared type (resource, enumerable of resources, other), the
optional `[JsonProperty]` name (itself a nullable string), and a value:
null, one resource, a sequence of resources, or a non-resource scalar. The
bookkeeping dictionary is a sequence of (slot index, original value). The
converter-context test is a boolean parameter. `CreateHypermedia` is an
uninterpreted function on the link list.

Behaviours of the code worth knowing, each proved about the model:

- Restoration is not protected by `try`/`finally` (Representation.cs:25-93).
  Properties are restored only if `OnSerialized` is called. If a second
  `OnSerialize` runs first, it clears the dictionary at line 29 and finds
  the properties already null, so every embeddable property stays null
  (`Properties.MissedRestoreLosesValues`).
- `Embedded` is assigned only inside the converter branch (lines 33-67). A
  plain pass after a converter pass still carries the old lookup
  (`Properties.StaleEmbeddedAfterPlainPass`).
- A present `[JsonProperty]` name is returned verbatim, even when it is
  null or empty (lines 73-76). It does not fall through to the resource's
  `Rel` or to the synthesized name (`Representation.GetRel`,
  `Properties.OverrideExample`).
- `OnSerialized` never clears the dictionary (lines 87-92). It is cleared
  only at the start of the next `OnSerialize` (line 29). Restoring twice is
  harmless (`Properties.RestoreTwice`), and the leftovers do not reach the
  next pass (`Properties.StaleBookkeepingIgnored`).
- The self link is inserted only when none exists (lines 104-105). Several
  self links produced by `CreateHypermedia` are all kept
  (`Links.DuplicateSelfLinksKept`).

## Model

| member | source | states |
|---|---|---|
| Representation.GetRel | WebApi.Hal/Representation.cs:70-82 | an attribute's name is returned verbatim, even when null or empty; without one, a non-empty own `Rel` is returned, otherwise `"unknownRel-" + typeName`; without an attribute the result is never null or empty |
| Properties.OverrideIgnoresResource | WebApi.Hal/Representation.cs:73-76 | with an attribute present the resource plays no part: any two resources get the attribute's name |
| Properties.FallbackNameExample | WebApi.Hal/Representation.cs:77-79 | a `Widget` with an empty or null `Rel` and no attribute is named `unknownRel-Widget` |
| Properties.OverrideExample | WebApi.Hal/Representation.cs:73-76 | attribute name `children` wins over own rel `kid`; a null attribute name is returned as null |
| Links.SelfCount | WebApi.Hal/Representation.cs:104 | the count of links whose rel is `self` is zero exactly when no link is a self link |
| Links.EnsureSelf | WebApi.Hal/Representation.cs:104-105 | the result has a self link; without one in the input it is `{self, href}` followed by the input in order; with one it is the input unchanged; it grows by at most one |
| Representation.RepopulateHyperMedia | WebApi.Hal/Representation.cs:101-106 | after the hook, a self link to the resource's `Href` is put first if none exists, else the hook's links are kept as they are; nothing else in the resource changes |
| Links.SelfCountAfterRepopulate | WebApi.Hal/Representation.cs:103-105 | after repopulating there is exactly one self link if the hook produced none, otherwise as many as the hook produced |
| Links.SelfCountPrepend | WebApi.Hal/Representation.cs:104-105 | putting a link in front adds one to the self count exactly when it is a self link |
| Links.RepopulateStable | WebApi.Hal/Representation.cs:101-106 | when the hook returns the repopulated links unchanged, repopulating again changes nothing |
| Links.RepopulateIdempotentForIdentity | WebApi.Hal/Representation.cs:101-106 | with a hook that leaves the links alone, repopulating twice equals repopulating once |
| Links.DuplicateSelfLinksKept | WebApi.Hal/Representation.cs:104-105 | two self links produced by the hook both survive: nothing enforces at most one |
| Links.AppendingHookGrows | WebApi.Hal/Representation.cs:103 | a hook that appends to the existing list makes the links longer on every serialization |
| Representation.ExtractFromSpec | WebApi.Hal/Representation.cs:37-63 | the property scan nulls exactly the embeddable non-null properties, records exactly them with their values in property order, and builds the working list of every slot's entries in property then element order |
| Representation.BookkeepingSpec | WebApi.Hal/Representation.cs:41-45 | the bookkeeping holds one entry per extracted property, in increasing property order, carrying the value it held, and every extracted property is recorded |
| Representation.OnSerialize | WebApi.Hal/Representation.cs:25-68 | links are repopulated in every context; under the converter, extracted properties become null, others keep their value, the bookkeeping is exactly the extracted ones with their original values, and `_embedded` is the lookup of the working list or null when the list is empty; outside the converter, properties and `_embedded` are untouched and the bookkeeping is empty |
| Representation.Restore | WebApi.Hal/Representation.cs:90-91 | unrecorded properties are untouched; with distinct keys every recorded property gets back its recorded value; declared types and attributes never change |
| Representation.OnSerialized | WebApi.Hal/Representation.cs:84-93 | only the properties change: links, `_embedded`, the uncleared bookkeeping, type name, `Rel` and `Href` stay, and every property keeps its declared type and attribute; under the converter, recorded properties get their recorded values and the rest are untouched; outside it the object is unchanged |
| Representation.New | WebApi.Hal/Representation.cs:14-23 | a new resource starts with an empty link list, an empty dictionary and a null `_embedded`, so restoring it changes nothing |
| Representation.IsEmbeddedResourceType | WebApi.Hal/Representation.cs:95-99 | a declared type is embeddable exactly when it is a resource type or an enumerable-of-resources type |
| Representation.SlotEntries | WebApi.Hal/Representation.cs:47-58 | a single resource gives one `(GetRel(attribute, r), r)` entry; a collection gives one such entry per element in order; there are none exactly when the value is an empty collection |
| Representation.ExtractFrom | WebApi.Hal/Representation.cs:37-63 | the scan from a given property on nulls exactly the extracted properties at or after it, leaves earlier ones alone, and only appends to the dictionary and the working list |
| Lookup.ToLookupSpec | WebApi.Hal/Representation.cs:64-65 | one group per distinct key, keys in first-seen order, each group exactly the elements with that key in list order, no empty group |
| Lookup.ToLookupFind | WebApi.Hal/Representation.cs:65 | the group for a key equals the filter of the pairs by that key |
| Lookup.ToLookupHasKey | WebApi.Hal/Representation.cs:65 | a key has a group exactly when some pair carries it |
| Lookup.ToLookupSize | WebApi.Hal/Representation.cs:65 | the groups together hold exactly as many elements as there were pairs |
| Lookup.ToLookupEmpty | WebApi.Hal/Representation.cs:64-66 | the lookup is empty exactly when the working list is |
| Properties.SavedDistinct | WebApi.Hal/Representation.cs:45 | the bookkeeping of one pass names each property at most once |
| Properties.RoundTrip | WebApi.Hal/Representation.cs:39-92 | `OnSerialize` then `OnSerialized`, both under the converter, leave every property equal to its value before serialization |
| Properties.RoundTripResource | WebApi.Hal/Representation.cs:26-92 | after a full converter pass only the links, the bookkeeping and `_embedded` differ from the original object |
| Properties.PlainPassLeavesProperties | WebApi.Hal/Representation.cs:33-87 | outside the converter `OnSerialize` changes no property and leaves `_embedded` as it was, and `OnSerialized` is a no-op |
| Properties.StaleBookkeepingIgnored | WebApi.Hal/Representation.cs:29 | leftover bookkeeping from an earlier pass has no influence on a new pass |
| Properties.RestoreTwice | WebApi.Hal/Representation.cs:87-92 | running `OnSerialized` twice, as the uncleared bookkeeping allows, equals running it once |
| Properties.RestoreOrderIrrelevant | WebApi.Hal/Representation.cs:90-91 | the order in which the dictionary's keys are enumerated does not change the restored properties |
| Properties.BookkeepingEmpty | WebApi.Hal/Representation.cs:37-45 | the bookkeeping is empty exactly when no property is embeddable and non-null |
| Properties.MissedRestoreLosesValues | WebApi.Hal/Representation.cs:29-45 | two `OnSerialize` calls without `OnSerialized` in between leave empty bookkeeping, so a later restore leaves every embeddable property null |
| Properties.ReserializeSame | WebApi.Hal/Representation.cs:28-29 | after a full pass, a second converter pass records the same bookkeeping, nulls the same properties and builds the same `_embedded` |
| Properties.AllEntriesCount | WebApi.Hal/Representation.cs:47-59 | the working list has one entry per single resource value and one per element of each collection |
| Properties.AllEntriesEmpty | WebApi.Hal/Representation.cs:47-59 | the working list is empty exactly when every extracted property is an empty collection |
| Properties.EmbeddedAbsentIff | WebApi.Hal/Representation.cs:64-66 | `_embedded` is null exactly when every extracted property is an empty collection, including when none is extracted |
| Properties.EmbeddedGrouping | WebApi.Hal/Representation.cs:47-66 | a non-empty working list gives an `_embedded` with one group per distinct relation name in first-seen order, each group the resources with that name in property then element order, and every extracted resource in exactly one group |
| Properties.StaleEmbeddedAfterPlainPass | WebApi.Hal/Representation.cs:33-67 | a plain pass after a converter pass that extracted at least one resource still carries that pass's `_embedded` |
| Properties.GroupingExample | WebApi.Hal/Representation.cs:47-66 | a collection of two `items` resources and a single `owner` resource become `{items: [r1, r2], owner: [r3]}` |

## Left out

- Json.NET itself is not modelled: the `[OnSerializing]`/`[OnSerialized]` wiring, the `[JsonProperty]`/`[JsonIgnore]` attributes and the JSON writing. Only their effect on the object is modelled.
- Reflection (`GetProperties`, `GetCustomAttribute`, `SetValue`, `IsAssignableFrom`) is replaced by the slot sequence. Each slot carries its declared type as a tag, and the model takes the slot order as the enumeration order, which .NET does not promise.
- `ResourceConverter.IsResourceConverterContext` and `StreamingContext` are not part of this model; the converter test is a boolean input.
- `CreateHypermedia` is an uninterpreted function of the links. A real subclass could also read or change other state, including the properties.
- Exceptions are not modelled. This covers a throwing hook or writer, `SetValue` on a read-only property, and the cast failure the type system rules out. `OnSerialize` therefore requires well-typed slots: an embeddable slot never holds a scalar.
- Concurrent serialization of one instance is not modelled.
- Object identity is not modelled. Resources are values, so aliasing (one resource in two properties, or a resource embedded in itself) is not represented.
- `Rel` and `Href` are virtual in the source. They are modelled as stored fields.
- `LinkName` is an unused plain property and is left out.
- A runtime value that is both a resource and an enumerable of resources is modelled as `Many`. The source's `as IEnumerable<IResource>` test picks the collection branch first.
- A null element inside an embedded collection is not modelled: `Many` holds only resources. In the source, without an attribute, `GetRel` reads `Rel` from the null element and throws (Representation.cs:77). This happens after line 45 has recorded the property and before line 61 nulls it. With an attribute, `(name, null)` goes into `_embedded` (lines 50-52, 75).
- A null `Links` list or a null link is not modelled: the link list is a sequence of links. In the source, either case throws at line 104.
- Nested resources are values inside the parent's slots. The transform works on one level only, as the source does.
