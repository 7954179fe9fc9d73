/**
 A HAL resource (`WebApi.Hal.Representation`) and the transform Json.NET
 runs on it around serialization: `OnSerialize` moves the properties that
 hold resources into the `_embedded` lookup and nulls them, `OnSerialized`
 puts them back.

 Reflection is replaced by an explicit list of property slots, each with
 its declared type, its optional `[JsonProperty]` name and its value.
 Whether the pass runs under the HAL resource converter is a boolean
 parameter, and the subclass hook `CreateHypermedia` a function on links.
 */
module Representation {
  import opened Wrappers
  import opened Links
  import Lookup

  /** The declared type of a public property, as far as embedding cares. */
  datatype PropType =
    | ResourceType              // assignable to IResource
    | ResourceEnumerableType    // assignable to IEnumerable<IResource>
    | OtherType(name: string)

  /** The current value of a property. */
  datatype Value =
    | Null
    | Single(res: Resource)
    | Many(items: seq<Resource>)
    | Scalar(text: string)      // anything that is not a resource

  /**
   A public property: declared type, the `PropertyName` of its
   `[JsonProperty]` attribute when it carries one (a name that may itself be
   null), and its value.
   */
  datatype Slot = Slot(declared: PropType, override: Option<NString>, value: Value)

  /** A (relation name, embedded resource) pair of the working list. */
  type Entry = (NString, Resource)

  /**
   One resource object. `saved` is the bookkeeping dictionary from property
   (slot index) to the value it held before extraction; `embedded` is the
   private `_embedded` lookup, `None` when it is null.
   */
  datatype Resource = Resource(
    typeName: string,
    rel: NString,
    href: NString,
    links: seq<Link>,
    slots: seq<Slot>,
    saved: seq<(nat, Value)>,
    embedded: Option<Lookup.Groups<NString, Resource>>)

  /** A freshly constructed resource: empty links, empty bookkeeping, no `_embedded`. */
  function New(typeName: string, rel: NString, href: NString, slots: seq<Slot>): (r: Resource)
    ensures r.links == [] && r.saved == [] && r.embedded.None?
    ensures r.typeName == typeName && r.rel == rel && r.href == href && r.slots == slots
    ensures SavedInRange(r) && OnSerialized(r, true) == r
  {
    Resource(typeName, rel, href, [], slots, [], None)
  }

  /** `IsEmbeddedResourceType`: the declared type is a resource or an enumerable of resources. */
  predicate IsEmbeddedResourceType(t: PropType): (b: bool)
    ensures b <==> !t.OtherType?
  {
    t.ResourceType? || t.ResourceEnumerableType?
  }

  /** The slot is taken out by an embedding pass: embeddable type and a non-null value. */
  predicate Extracted(s: Slot) {
    IsEmbeddedResourceType(s.declared) && !s.value.Null?
  }

  /**
   What the C# type system guarantees: an embeddable property holds null or
   resources, and a value of an enumerable-of-resources type always takes
   the collection branch.
   */
  predicate WellTypedSlots(slots: seq<Slot>) {
    forall j :: 0 <= j < |slots| ==>
      && (IsEmbeddedResourceType(slots[j].declared) ==> !slots[j].value.Scalar?)
      && (slots[j].declared.ResourceEnumerableType? ==> !slots[j].value.Single?)
  }

  predicate WellTyped(r: Resource) {
    WellTypedSlots(r.slots)
  }

  /**
   `GetRel`: the attribute's name when the property carries one (verbatim,
   even null or empty); else the resource's own non-empty `Rel`; else a name
   synthesized from its type. Without an override it always yields a
   non-empty name.
   */
  function GetRel(override: Option<NString>, resource: Resource): (rel: NString)
    ensures override.Some? ==> rel == override.value
    ensures override.None? ==> !IsNullOrEmpty(rel)
    ensures override.None? && !IsNullOrEmpty(resource.rel) ==> rel == resource.rel
    ensures override.None? && IsNullOrEmpty(resource.rel) ==> rel == Some("unknownRel-" + resource.typeName)
  {
    if override.Some? then override.value
    else if IsNullOrEmpty(resource.rel) then Some("unknownRel-" + resource.typeName)
    else resource.rel
  }

  /** The working-list entries one extracted property contributes, in element order. */
  function SlotEntries(s: Slot): (es: seq<Entry>)
    requires Extracted(s) && !s.value.Scalar?
    ensures es == [] <==> s.value == Many([])
    ensures s.value.Single? ==> es == [(GetRel(s.override, s.value.res), s.value.res)]
    ensures s.value.Many? ==> |es| == |s.value.items|
    ensures s.value.Many? ==> forall j :: 0 <= j < |es| ==>
              es[j] == (GetRel(s.override, s.value.items[j]), s.value.items[j])
  {
    match s.value
    case Many(xs) => seq(|xs|, j requires 0 <= j < |xs| => (GetRel(s.override, xs[j]), xs[j]))
    case Single(x) => [(GetRel(s.override, x), x)]
  }

  /**
   Reference definition of the working list: the entries of every extracted
   property, in property order.
   */
  function AllEntries(slots: seq<Slot>): seq<Entry>
    requires WellTypedSlots(slots)
  {
    if slots == [] then []
    else
      var last := slots[|slots| - 1];
      AllEntries(slots[..|slots| - 1]) + (if Extracted(last) then SlotEntries(last) else [])
  }

  /** A property after an embedding pass: nulled if it was extracted, untouched otherwise. */
  function Cleared(s: Slot): Slot {
    if Extracted(s) then s.(value := Null) else s
  }

  /** The bookkeeping has an entry for property `j`. */
  predicate Recorded(saved: seq<(nat, Value)>, j: nat) {
    exists k :: 0 <= k < |saved| && saved[k].0 == j
  }

  /**
   `saved` is the bookkeeping an embedding pass over the first `n` properties
   of `orig` leaves: one entry per extracted property, in property order,
   with the value it held.
   */
  predicate SavedUpTo(orig: seq<Slot>, saved: seq<(nat, Value)>, n: nat) {
    && (forall k :: 0 <= k < |saved| ==>
          && saved[k].0 < n && saved[k].0 < |orig|
          && Extracted(orig[saved[k].0])
          && saved[k].1 == orig[saved[k].0].value)
    && (forall a, b :: 0 <= a < b < |saved| ==> saved[a].0 < saved[b].0)
    && (forall j :: 0 <= j < n && j < |orig| && Extracted(orig[j]) ==> Recorded(saved, j))
  }

  /**
   Reference definition of the bookkeeping an embedding pass leaves: one
   (property, original value) entry per extracted property, in property order.
   */
  function Bookkeeping(slots: seq<Slot>): seq<(nat, Value)>
  {
    if slots == [] then []
    else
      var n := |slots| - 1;
      Bookkeeping(slots[..n]) + (if Extracted(slots[n]) then [(n, slots[n].value)] else [])
  }

  /** The reference bookkeeping is exactly the extracted properties with their values. */
  lemma {:induction false} BookkeepingSpec(slots: seq<Slot>)
    ensures SavedUpTo(slots, Bookkeeping(slots), |slots|)
    decreases |slots|
  {
    if slots != [] {
      var n := |slots| - 1;
      var init := slots[..n];
      BookkeepingSpec(init);
      var b := Bookkeeping(init);
      var b' := Bookkeeping(slots);
      assert forall k :: 0 <= k < |b| ==> b'[k] == b[k];
      forall j | 0 <= j < |slots| && Extracted(slots[j]) ensures Recorded(b', j) {
        if j < n {
          assert init[j] == slots[j];
          var k :| 0 <= k < |b| && b[k].0 == j;
          assert b'[k].0 == j;
        } else {
          assert b'[|b|].0 == j;
        }
      }
    }
  }

  /** The state of the `foreach` over the properties. */
  datatype Extraction = Extraction(slots: seq<Slot>, saved: seq<(nat, Value)>, list: seq<Entry>)

  /**
   The `foreach` over the properties from index `i` on: each embeddable
   property with a non-null value is recorded, its entries are appended to
   the working list, and it is set to null.
   */
  function ExtractFrom(slots: seq<Slot>, i: nat, saved: seq<(nat, Value)>, list: seq<Entry>): (e: Extraction)
    requires i <= |slots|
    requires WellTypedSlots(slots)
    ensures |e.slots| == |slots| && WellTypedSlots(e.slots)
    ensures forall j :: 0 <= j < i ==> e.slots[j] == slots[j]
    ensures forall j :: i <= j < |slots| ==> e.slots[j] == Cleared(slots[j])
    ensures |saved| <= |e.saved| && e.saved[..|saved|] == saved
    ensures |list| <= |e.list| && e.list[..|list|] == list
    decreases |slots| - i
  {
    if i == |slots| then Extraction(slots, saved, list)
    else if Extracted(slots[i]) then
      ExtractFrom(slots[i := slots[i].(value := Null)], i + 1,
                  saved + [(i, slots[i].value)], list + SlotEntries(slots[i]))
    else
      ExtractFrom(slots, i + 1, saved, list)
  }

  /** The loop invariant of the property scan, carried to the end of the list. */
  lemma {:induction false} ExtractFromSpec(orig: seq<Slot>, slots: seq<Slot>, i: nat, saved: seq<(nat, Value)>, list: seq<Entry>)
    requires WellTypedSlots(orig) && WellTypedSlots(slots)
    requires |slots| == |orig| && i <= |orig|
    requires forall j :: 0 <= j < |orig| ==> slots[j] == (if j < i then Cleared(orig[j]) else orig[j])
    requires saved == Bookkeeping(orig[..i])
    requires list == AllEntries(orig[..i])
    ensures var e := ExtractFrom(slots, i, saved, list);
            && |e.slots| == |orig|
            && (forall j :: 0 <= j < |orig| ==> e.slots[j] == Cleared(orig[j]))
            && e.saved == Bookkeeping(orig)
            && e.list == AllEntries(orig)
    decreases |orig| - i
  {
    if i == |orig| {
      assert orig[..i] == orig;
    } else {
      assert orig[..i + 1][..i] == orig[..i];
      if Extracted(orig[i]) {
        ExtractFromSpec(orig, slots[i := slots[i].(value := Null)], i + 1,
                        saved + [(i, slots[i].value)], list + SlotEntries(slots[i]));
      } else {
        ExtractFromSpec(orig, slots, i + 1, saved, list);
      }
    }
  }

  /**
   `RepopulateHyperMedia`: runs the hook, then makes sure a self link to the
   resource's own `Href` exists, in front if it has to be added. Nothing but
   the links changes.
   */
  function RepopulateHyperMedia(r: Resource, createHypermedia: seq<Link> -> seq<Link>): (r': Resource)
    ensures HasSelf(r'.links)
    ensures var created := createHypermedia(r.links);
            && (!HasSelf(created) ==> r'.links == [Link(SelfRel, r.href)] + created)
            && (HasSelf(created) ==> r'.links == created)
    ensures r' == r.(links := r'.links)
  {
    r.(links := Repopulate(createHypermedia, r.links, r.href))
  }

  /**
   `OnSerialize`: clears the bookkeeping, repopulates the links and, under
   the resource converter only, extracts the resource-valued properties into
   `_embedded` (null when nothing was extracted) and nulls them. Outside the
   converter the properties and `_embedded` keep whatever they held.
   */
  function OnSerialize(r: Resource, converterContext: bool, createHypermedia: seq<Link> -> seq<Link>): (r': Resource)
    requires WellTyped(r)
    ensures r'.links == Repopulate(createHypermedia, r.links, r.href)
    ensures r'.typeName == r.typeName && r'.rel == r.rel && r'.href == r.href
    ensures |r'.slots| == |r.slots| && WellTyped(r')
    ensures !converterContext ==> r'.slots == r.slots && r'.embedded == r.embedded && r'.saved == []
    ensures converterContext ==> forall j :: 0 <= j < |r.slots| ==> r'.slots[j] == Cleared(r.slots[j])
    ensures converterContext ==> r'.saved == Bookkeeping(r.slots) && SavedUpTo(r.slots, r'.saved, |r.slots|)
    ensures converterContext ==>
              r'.embedded == (if AllEntries(r.slots) == [] then None else Some(Lookup.ToLookup(AllEntries(r.slots))))
  {
    var links := RepopulateHyperMedia(r, createHypermedia).links;
    if !converterContext then
      r.(saved := [], links := links)
    else
      var e := ExtractFrom(r.slots, 0, [], []);
      ExtractFromSpec(r.slots, r.slots, 0, [], []);
      BookkeepingSpec(r.slots);
      r.(saved := e.saved,
         links := links,
         slots := e.slots,
         embedded := if e.list == [] then None else Some(Lookup.ToLookup(e.list)))
  }

  /** Every bookkeeping entry names a property of this object. */
  predicate SavedInRange(r: Resource) {
    forall k :: 0 <= k < |r.saved| ==> r.saved[k].0 < |r.slots|
  }

  /**
   Writes every bookkeeping entry back into its property. With distinct
   keys, as a dictionary has, each recorded property gets its saved value
   and every other property is untouched.
   */
  function Restore(slots: seq<Slot>, saved: seq<(nat, Value)>): (slots': seq<Slot>)
    requires forall k :: 0 <= k < |saved| ==> saved[k].0 < |slots|
    ensures |slots'| == |slots|
    ensures forall j :: 0 <= j < |slots| ==>
              slots'[j].declared == slots[j].declared && slots'[j].override == slots[j].override
    ensures forall j :: 0 <= j < |slots| && !Recorded(saved, j) ==> slots'[j] == slots[j]
    ensures Lookup.Distinct(Lookup.KeysOf(saved)) ==>
              forall k :: 0 <= k < |saved| ==> slots'[saved[k].0].value == saved[k].1
    decreases |saved|
  {
    if saved == [] then slots
    else
      var (i, v) := saved[0];
      var rest := saved[1..];
      assert forall k :: 0 <= k < |rest| ==> rest[k] == saved[k + 1];
      assert Lookup.Distinct(Lookup.KeysOf(saved)) ==> Lookup.Distinct(Lookup.KeysOf(rest)) by {
        if Lookup.Distinct(Lookup.KeysOf(saved)) {
          forall a, b | 0 <= a < b < |rest| ensures Lookup.KeysOf(rest)[a] != Lookup.KeysOf(rest)[b] {
            assert Lookup.KeysOf(saved)[a + 1] != Lookup.KeysOf(saved)[b + 1];
          }
        }
      }
      assert Lookup.Distinct(Lookup.KeysOf(saved)) ==> !Recorded(rest, i) by {
        if Lookup.Distinct(Lookup.KeysOf(saved)) {
          forall k | 0 <= k < |rest| ensures rest[k].0 != i {
            assert Lookup.KeysOf(saved)[0] != Lookup.KeysOf(saved)[k + 1];
          }
        }
      }
      assert forall j :: !Recorded(saved, j) ==> !Recorded(rest, j) && j != i by {
        forall j | Recorded(rest, j) ensures Recorded(saved, j) {
          var k :| 0 <= k < |rest| && rest[k].0 == j;
          assert saved[k + 1].0 == j;
        }
      }
      Restore(slots[i := slots[i].(value := v)], rest)
  }

  /**
   `OnSerialized`: under the resource converter, writes every bookkeeping
   entry back into its property. The bookkeeping is not cleared; outside
   the converter nothing happens.
   */
  function OnSerialized(r: Resource, converterContext: bool): (r': Resource)
    requires SavedInRange(r)
    ensures r' == r.(slots := r'.slots)
    ensures |r'.slots| == |r.slots|
    ensures forall j :: 0 <= j < |r.slots| ==>
              r'.slots[j].declared == r.slots[j].declared && r'.slots[j].override == r.slots[j].override
    ensures !converterContext ==> r' == r
    ensures converterContext ==> forall j :: 0 <= j < |r.slots| && !Recorded(r.saved, j) ==> r'.slots[j] == r.slots[j]
    ensures converterContext && Lookup.Distinct(Lookup.KeysOf(r.saved)) ==>
              forall k :: 0 <= k < |r.saved| ==> r'.slots[r.saved[k].0].value == r.saved[k].1
  {
    if converterContext then r.(slots := Restore(r.slots, r.saved)) else r
  }
}
