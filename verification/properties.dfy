/**
 Properties of the serialization transform that relate several calls:
 the round trip, what a missed restore costs, re-serialization, the
 grouping of the working list into `_embedded`.
 */
module Properties {
  import opened Wrappers
  import opened Links
  import Lookup
  import opened Representation

  /** An override decides the name on its own: the resource's `Rel` plays no part. */
  lemma OverrideIgnoresResource(name: NString, a: Resource, b: Resource)
    ensures GetRel(Some(name), a) == GetRel(Some(name), b) == name
  {
  }

  /** Bookkeeping built in property order holds each property at most once. */
  lemma SavedDistinct(orig: seq<Slot>, saved: seq<(nat, Value)>, n: nat)
    requires SavedUpTo(orig, saved, n)
    ensures Lookup.Distinct(Lookup.KeysOf(saved))
  {
    var ks := Lookup.KeysOf(saved);
    forall a, b | 0 <= a < b < |ks| ensures ks[a] != ks[b] {
      assert saved[a].0 < saved[b].0;
    }
  }

  /**
   Round trip: an embedding pass followed by its `OnSerialized` leaves every
   property as it was before serialization.
   */
  lemma RoundTrip(r: Resource, createHypermedia: seq<Link> -> seq<Link>)
    requires WellTyped(r)
    ensures SavedInRange(OnSerialize(r, true, createHypermedia))
    ensures OnSerialized(OnSerialize(r, true, createHypermedia), true).slots == r.slots
  {
    var s := OnSerialize(r, true, createHypermedia);
    SavedDistinct(r.slots, s.saved, |r.slots|);
    var t := OnSerialized(s, true);
    forall j | 0 <= j < |r.slots| ensures t.slots[j] == r.slots[j] {
      if Extracted(r.slots[j]) {
        assert Recorded(s.saved, j);
        var k :| 0 <= k < |s.saved| && s.saved[k].0 == j;
        assert t.slots[j].value == r.slots[j].value;
      } else {
        forall k | 0 <= k < |s.saved| ensures s.saved[k].0 != j {
        }
      }
    }
  }

  /**
   Only the hook-produced links, the bookkeeping and `_embedded` differ
   after a full embedding pass; the rest of the object is as it was.
   */
  lemma RoundTripResource(r: Resource, createHypermedia: seq<Link> -> seq<Link>)
    requires WellTyped(r)
    ensures SavedInRange(OnSerialize(r, true, createHypermedia))
    ensures var t := OnSerialized(OnSerialize(r, true, createHypermedia), true);
            t == r.(links := Repopulate(createHypermedia, r.links, r.href),
                    saved := t.saved,
                    embedded := t.embedded)
  {
    RoundTrip(r, createHypermedia);
  }

  /**
   Outside the resource converter, `OnSerialize` changes no property and
   leaves `_embedded` as it was, and `OnSerialized` changes nothing.
   */
  lemma PlainPassLeavesProperties(r: Resource, createHypermedia: seq<Link> -> seq<Link>)
    requires WellTyped(r)
    ensures var s := OnSerialize(r, false, createHypermedia);
            && s.slots == r.slots && s.embedded == r.embedded && s.saved == []
            && SavedInRange(s) && OnSerialized(s, false) == s
  {
  }

  /** Stale bookkeeping from an earlier pass has no influence on a new one. */
  lemma StaleBookkeepingIgnored(r: Resource, stale: seq<(nat, Value)>, converterContext: bool,
                                createHypermedia: seq<Link> -> seq<Link>)
    requires WellTyped(r)
    ensures OnSerialize(r.(saved := stale), converterContext, createHypermedia)
         == OnSerialize(r, converterContext, createHypermedia)
  {
  }

  /** Restoring is idempotent: the uncleared bookkeeping does no harm if `OnSerialized` runs twice. */
  lemma RestoreTwice(r: Resource)
    requires SavedInRange(r) && Lookup.Distinct(Lookup.KeysOf(r.saved))
    ensures SavedInRange(OnSerialized(r, true))
    ensures OnSerialized(OnSerialized(r, true), true) == OnSerialized(r, true)
  {
    var once := OnSerialized(r, true);
    var twice := OnSerialized(once, true);
    forall j | 0 <= j < |r.slots| ensures twice.slots[j] == once.slots[j] {
      if Recorded(r.saved, j) {
        var k :| 0 <= k < |r.saved| && r.saved[k].0 == j;
        assert twice.slots[j].value == once.slots[j].value;
      }
    }
  }

  /** The dictionary's enumeration order does not matter to the restore. */
  lemma RestoreOrderIrrelevant(slots: seq<Slot>, saved: seq<(nat, Value)>, saved': seq<(nat, Value)>)
    requires forall k :: 0 <= k < |saved| ==> saved[k].0 < |slots|
    requires forall k :: 0 <= k < |saved'| ==> saved'[k].0 < |slots|
    requires Lookup.Distinct(Lookup.KeysOf(saved)) && Lookup.Distinct(Lookup.KeysOf(saved'))
    requires multiset(saved) == multiset(saved')
    ensures Restore(slots, saved) == Restore(slots, saved')
  {
    var a := Restore(slots, saved);
    var b := Restore(slots, saved');
    forall j | 0 <= j < |slots| ensures a[j] == b[j] {
      if Recorded(saved, j) {
        var k :| 0 <= k < |saved| && saved[k].0 == j;
        assert saved[k] in multiset(saved');
        var k' :| 0 <= k' < |saved'| && saved'[k'] == saved[k];
        assert a[j].value == b[j].value;
      } else {
        forall k' | 0 <= k' < |saved'| ensures saved'[k'].0 != j {
          assert saved'[k'] in multiset(saved);
          assert saved'[k'] in saved;
        }
      }
    }
  }

  /** The bookkeeping is empty exactly when no property is extracted. */
  lemma {:induction false} BookkeepingEmpty(slots: seq<Slot>)
    ensures Bookkeeping(slots) == [] <==> forall j :: 0 <= j < |slots| ==> !Extracted(slots[j])
    decreases |slots|
  {
    BookkeepingSpec(slots);
    if slots != [] {
      var n := |slots| - 1;
      BookkeepingEmpty(slots[..n]);
      assert forall j :: 0 <= j < n ==> slots[..n][j] == slots[j];
    }
  }

  /**
   No try/finally: a second `OnSerialize` before the restore clears the
   bookkeeping, so the restore that follows leaves every embeddable property null.
   */
  lemma MissedRestoreLosesValues(r: Resource, createHypermedia: seq<Link> -> seq<Link>)
    requires WellTyped(r)
    ensures var s := OnSerialize(OnSerialize(r, true, createHypermedia), true, createHypermedia);
            && s.saved == []
            && forall j :: 0 <= j < |r.slots| && IsEmbeddedResourceType(r.slots[j].declared) ==>
                 OnSerialized(s, true).slots[j].value == Null
  {
    var s1 := OnSerialize(r, true, createHypermedia);
    BookkeepingEmpty(s1.slots);
  }

  /**
   The object stays re-serializable: after a full pass, a second embedding
   pass records the same bookkeeping and builds the same `_embedded`.
   */
  lemma ReserializeSame(r: Resource, createHypermedia: seq<Link> -> seq<Link>)
    requires WellTyped(r)
    ensures SavedInRange(OnSerialize(r, true, createHypermedia))
    ensures var first := OnSerialize(r, true, createHypermedia);
            var second := OnSerialize(OnSerialized(first, true), true, createHypermedia);
            second.saved == first.saved && second.embedded == first.embedded && second.slots == first.slots
  {
    RoundTrip(r, createHypermedia);
  }

  /** Number of resources the extracted properties hold: one per single value, one per element. */
  function ResourceCount(slots: seq<Slot>): nat
  {
    if slots == [] then 0
    else
      var last := slots[|slots| - 1];
      ResourceCount(slots[..|slots| - 1]) +
        (if !Extracted(last) then 0
         else match last.value
           case Single(_) => 1
           case Many(xs) => |xs|
           case _ => 0)
  }

  /** The working list has exactly one entry per extracted resource. */
  lemma {:induction false} AllEntriesCount(slots: seq<Slot>)
    requires WellTypedSlots(slots)
    ensures |AllEntries(slots)| == ResourceCount(slots)
    decreases |slots|
  {
    if slots != [] {
      AllEntriesCount(slots[..|slots| - 1]);
    }
  }

  /**
   The working list is empty exactly when every extracted property is an
   empty collection (in particular when nothing is extracted).
   */
  lemma {:induction false} AllEntriesEmpty(slots: seq<Slot>)
    requires WellTypedSlots(slots)
    ensures AllEntries(slots) == [] <==>
            forall j :: 0 <= j < |slots| && Extracted(slots[j]) ==> slots[j].value == Many([])
    decreases |slots|
  {
    if slots != [] {
      var n := |slots| - 1;
      AllEntriesEmpty(slots[..n]);
      assert forall j :: 0 <= j < n ==> slots[..n][j] == slots[j];
      if Extracted(slots[n]) && slots[n].value.Many? && slots[n].value.items != [] {
        assert |SlotEntries(slots[n])| > 0;
      }
    }
  }

  /**
   `_embedded` after an embedding pass is null exactly when every extracted
   property is an empty collection, including when none is extracted.
   */
  lemma EmbeddedAbsentIff(r: Resource, createHypermedia: seq<Link> -> seq<Link>)
    requires WellTyped(r)
    ensures OnSerialize(r, true, createHypermedia).embedded.None? <==>
            forall j :: 0 <= j < |r.slots| && Extracted(r.slots[j]) ==> r.slots[j].value == Many([])
  {
    AllEntriesEmpty(r.slots);
  }

  /**
   `_embedded` after an embedding pass groups the working list by relation
   name: one group per distinct name, in first-seen order, each holding the
   resources with that name in property then element order, and every
   extracted resource in exactly one group.
   */
  lemma EmbeddedGrouping(r: Resource, createHypermedia: seq<Link> -> seq<Link>)
    requires WellTyped(r)
    ensures var es := AllEntries(r.slots);
            var s := OnSerialize(r, true, createHypermedia);
            es != [] ==>
              && s.embedded.Some?
              && var g := s.embedded.value;
              && Lookup.Distinct(Lookup.KeysOf(g))
              && (forall k :: k in Lookup.KeysOf(g) <==> k in Lookup.KeysOf(es))
              && (forall k :: Lookup.Find(g, k) == Lookup.Select(es, k))
              && (forall i :: 0 <= i < |g| ==> g[i].1 != [])
              && (forall i, j :: 0 <= i < j < |g| ==>
                    Lookup.FirstIndex(Lookup.KeysOf(es), g[i].0) < Lookup.FirstIndex(Lookup.KeysOf(es), g[j].0))
              && Lookup.Size(g) == ResourceCount(r.slots)
  {
    var es := AllEntries(r.slots);
    Lookup.ToLookupSpec(es);
    var g := Lookup.ToLookup(es);
    forall k ensures k in Lookup.KeysOf(g) <==> k in Lookup.KeysOf(es) {
      Lookup.ToLookupHasKey(es, k);
    }
    forall k ensures Lookup.Find(g, k) == Lookup.Select(es, k) {
      Lookup.ToLookupFind(es, k);
    }
    Lookup.ToLookupSize(es);
    AllEntriesCount(r.slots);
  }

  /**
   A plain pass after an embedding pass still carries the `_embedded` lookup
   the embedding pass built: nothing resets it outside the converter.
   */
  lemma StaleEmbeddedAfterPlainPass(r: Resource, createHypermedia: seq<Link> -> seq<Link>)
    requires WellTyped(r)
    requires exists j :: 0 <= j < |r.slots| && Extracted(r.slots[j]) && r.slots[j].value != Many([])
    ensures SavedInRange(OnSerialize(r, true, createHypermedia))
    ensures var first := OnSerialize(r, true, createHypermedia);
            var plain := OnSerialize(OnSerialized(first, true), false, createHypermedia);
            plain.embedded.Some? && plain.embedded == first.embedded
  {
    RoundTrip(r, createHypermedia);
    AllEntriesEmpty(r.slots);
  }

  /** A resource of type `Widget` with an empty `Rel` and no override is named `unknownRel-Widget`. */
  lemma FallbackNameExample()
    ensures GetRel(None, New("Widget", Some(""), None, [])) == Some("unknownRel-Widget")
    ensures GetRel(None, New("Widget", None, None, [])) == Some("unknownRel-Widget")
  {
    assert "unknownRel-" + "Widget" == "unknownRel-Widget";
  }

  /** An override `children` wins over the resource's own `kid`; a null override is kept as null. */
  lemma OverrideExample()
    ensures GetRel(Some(Some("children")), New("Kid", Some("kid"), None, [])) == Some("children")
    ensures GetRel(Some(None), New("Kid", Some("kid"), None, [])) == None
  {
  }

  /** Two `items` resources in a collection and one `owner` resource group as `{items: [r1, r2], owner: [r3]}`. */
  lemma GroupingExample(createHypermedia: seq<Link> -> seq<Link>)
    ensures var r1 := New("Item", Some("items"), Some("/items/1"), []);
            var r2 := New("Item", Some("items"), Some("/items/2"), []);
            var r3 := New("Person", Some("owner"), Some("/people/3"), []);
            var order := New("Order", None, Some("/orders/1"),
                             [Slot(ResourceEnumerableType, None, Many([r1, r2])),
                              Slot(OtherType("String"), None, Scalar("pending")),
                              Slot(ResourceType, None, Single(r3))]);
            OnSerialize(order, true, createHypermedia).embedded
              == Some([(Some("items"), [r1, r2]), (Some("owner"), [r3])])
  {
    var r1 := New("Item", Some("items"), Some("/items/1"), []);
    var r2 := New("Item", Some("items"), Some("/items/2"), []);
    var r3 := New("Person", Some("owner"), Some("/people/3"), []);
    var slots := [Slot(ResourceEnumerableType, None, Many([r1, r2])),
                  Slot(OtherType("String"), None, Scalar("pending")),
                  Slot(ResourceType, None, Single(r3))];
    var es := [(Some("items"), r1), (Some("items"), r2), (Some("owner"), r3)];
    assert SlotEntries(slots[0]) == es[..2];
    assert AllEntries(slots[..1]) == es[..2] by {
      assert slots[..1][..0] == [];
      assert slots[..1][0] == slots[0];
    }
    assert AllEntries(slots[..2]) == es[..2] by {
      assert slots[..2][..1] == slots[..1];
      assert slots[..2][1] == slots[1];
    }
    assert AllEntries(slots) == es by {
      assert slots[..2] == slots[..|slots| - 1];
      assert SlotEntries(slots[2]) == [es[2]];
      assert es == es[..2] + [es[2]];
    }
    var g1 := [(Some("items"), [r1])];
    var g2 := [(Some("items"), [r1, r2])];
    assert Lookup.ToLookup(es[..1]) == g1 by {
      assert es[..1][..0] == [];
      assert Lookup.ToLookup(es[..1]) == Lookup.Add([], Some("items"), r1);
    }
    assert Lookup.ToLookup(es[..2]) == g2 by {
      assert es[..2][..1] == es[..1];
      assert Lookup.ToLookup(es[..2]) == Lookup.Add(g1, Some("items"), r2);
      assert Lookup.Add(g1, Some("items"), r2) == [(Some("items"), [r1] + [r2])] + g1[1..];
      assert [r1] + [r2] == [r1, r2];
    }
    assert Lookup.ToLookup(es) == [(Some("items"), [r1, r2]), (Some("owner"), [r3])] by {
      assert es[..2] == es[..|es| - 1];
      assert Lookup.ToLookup(es) == Lookup.Add(g2, Some("owner"), r3);
      assert Lookup.Add(g2, Some("owner"), r3) == [g2[0]] + Lookup.Add([], Some("owner"), r3);
    }
  }
}
