/** What a monitoring pass promises, stated over the specification
    functions that MonitorPass is proved against. */
module ReconcilerProperties {
  import opened Wrappers
  import opened Persistence
  import opened Reconciler

  /** A block whose link is already saved, whose price text differs from the
      saved one, and whose price tag was found: `r` is its product object and
      `was` the saved price. */
  predicate Repriced(saved: Snapshot, b: Block, r: Record, was: string) {
    && b.href.Some?
    && LinkOf(b) in saved
    && r == RecordOf(b)
    && was == SavedPrice(saved, LinkOf(b))
    && PriceText(b) != was
    && PriceText(b) != PriceNotFound
  }

  /** The products of the NewProduct events, in order. */
  function NewlyListed(events: seq<Event>): seq<Record> {
    if events == [] then []
    else
      var last := events[|events| - 1];
      NewlyListed(events[..|events| - 1]) + (if last.NewProduct? then [last.product] else [])
  }

  /** The records whose link the saved snapshot does not know, in order. */
  function Unsaved(saved: Snapshot, records: seq<Record>): seq<Record>
    requires AllHaveLinks(records)
  {
    if records == [] then []
    else
      var init, last := records[..|records| - 1], records[|records| - 1];
      assert forall i :: 0 <= i < |init| ==> init[i] == records[i];
      Unsaved(saved, init) + (if last[LinkKey] !in saved then [last] else [])
  }

  lemma {:induction false} NewlyListedAppend(a: seq<Event>, b: seq<Event>)
    ensures NewlyListed(a + b) == NewlyListed(a) + NewlyListed(b)
  {
    if b == [] {
      assert a + b == a;
    } else {
      var init := b[..|b| - 1];
      NewlyListedAppend(a, init);
      assert (a + b)[..|a + b| - 1] == a + init;
    }
  }

  lemma {:induction false} UnsavedAppend(saved: Snapshot, a: seq<Record>, b: seq<Record>)
    requires AllHaveLinks(a) && AllHaveLinks(b)
    ensures AllHaveLinks(a + b)
    ensures Unsaved(saved, a + b) == Unsaved(saved, a) + Unsaved(saved, b)
  {
    if b == [] {
      assert a + b == a;
    } else {
      var init := b[..|b| - 1];
      assert forall i :: 0 <= i < |init| ==> init[i] == b[i];
      UnsavedAppend(saved, a, init);
      assert (a + b)[..|a + b| - 1] == a + init;
    }
  }

  /** New-product detection: the NewProduct events are exactly the observed
      products whose link is not saved, one per occurrence on the page, in
      page order (the saved snapshot is not updated during the loop). */
  lemma {:induction false} NewDetection(saved: Snapshot, blocks: seq<Block>)
    ensures NewlyListed(ScanEvents(saved, blocks)) == Unsaved(saved, Observed(blocks))
  {
    if blocks != [] {
      var n := |blocks| - 1;
      var b := blocks[n];
      ObservedStep(blocks, n);
      EventsStep(saved, blocks, n);
      assert blocks[..n + 1] == blocks;
      NewDetection(saved, blocks[..n]);
      NewlyListedAppend(ScanEvents(saved, blocks[..n]), BlockEvents(saved, b));
      var tail := if b.href.Some? then [RecordOf(b)] else [];
      UnsavedAppend(saved, Observed(blocks[..n]), tail);
      if b.href.Some? {
        assert Unsaved(saved, tail) == if LinkOf(b) !in saved then [RecordOf(b)] else [] by {
          assert tail[..0] == [];
        }
        assert NewlyListed(BlockEvents(saved, b)) == Unsaved(saved, tail) by {
          var e := BlockEvents(saved, b);
          if e != [] {
            assert e[..0] == [];
          }
        }
      }
    }
  }

  /** Price-change detection: a PriceChanged(r, was) event is emitted exactly
      when some block with a saved link shows a found price text different
      from the saved one (`was`, "Price not saved" when the saved object has
      no price). A block whose price tag is missing never fires one; a saved
      "Price not found" followed by a real price does. */
  lemma {:induction false} PriceChangedIff(saved: Snapshot, blocks: seq<Block>, r: Record, was: string)
    ensures PriceChanged(r, was) in ScanEvents(saved, blocks) <==>
              exists i :: 0 <= i < |blocks| && Repriced(saved, blocks[i], r, was)
  {
    if blocks != [] {
      var n := |blocks| - 1;
      EventsStep(saved, blocks, n);
      assert blocks[..n + 1] == blocks;
      PriceChangedIff(saved, blocks[..n], r, was);
      assert forall i :: 0 <= i < n ==> blocks[..n][i] == blocks[i];
      assert PriceChanged(r, was) in BlockEvents(saved, blocks[n]) <==> Repriced(saved, blocks[n], r, was);
    }
  }

  /** The first loop emits only NewProduct and PriceChanged events, at most one per block. */
  lemma {:induction false} ScanEventsKinds(saved: Snapshot, blocks: seq<Block>)
    ensures |ScanEvents(saved, blocks)| <= |Observed(blocks)|
    ensures forall e :: e in ScanEvents(saved, blocks) ==> e.NewProduct? || e.PriceChanged?
  {
    if blocks != [] {
      var n := |blocks| - 1;
      ObservedStep(blocks, n);
      EventsStep(saved, blocks, n);
      assert blocks[..n + 1] == blocks;
      ScanEventsKinds(saved, blocks[..n]);
    }
  }

  /** The new snapshot's keys are exactly the links of the blocks that have
      one, and each maps to a record built from a block with that link:
      nothing is carried over from the saved snapshot. */
  lemma {:induction false} CurrentEntry(blocks: seq<Block>, link: string)
    ensures link in Current(blocks) <==> exists i :: 0 <= i < |blocks| && LinksTo(blocks[i], link)
    ensures link in Current(blocks) ==>
              exists i :: 0 <= i < |blocks| && LinksTo(blocks[i], link) && Current(blocks)[link] == RecordOf(blocks[i])
  {
    if blocks != [] {
      var n := |blocks| - 1;
      ObservedStep(blocks, n);
      assert blocks[..n + 1] == blocks;
      CurrentEntry(blocks[..n], link);
      assert forall i :: 0 <= i < n ==> blocks[..n][i] == blocks[i];
      if LinksTo(blocks[n], link) {
        assert Current(blocks)[link] == RecordOf(blocks[n]);
      }
    }
  }

  /** Last wins: a link's entry is built from the last block with that link. */
  lemma {:induction false} CurrentLastWins(blocks: seq<Block>, i: nat)
    requires i < |blocks| && blocks[i].href.Some?
    requires forall j :: i < j < |blocks| ==> !LinksTo(blocks[j], LinkOf(blocks[i]))
    ensures LinkOf(blocks[i]) in Current(blocks)
    ensures Current(blocks)[LinkOf(blocks[i])] == RecordOf(blocks[i])
  {
    var n := |blocks| - 1;
    ObservedStep(blocks, n);
    assert blocks[..n + 1] == blocks;
    if i < n {
      assert forall j :: 0 <= j < n ==> blocks[..n][j] == blocks[j];
      CurrentLastWins(blocks[..n], i);
    }
  }

  lemma {:induction false} QuietScan(saved: Snapshot, blocks: seq<Block>)
    requires forall i :: 0 <= i < |blocks| && blocks[i].href.Some? ==>
               LinkOf(blocks[i]) in saved && PriceText(blocks[i]) == SavedPrice(saved, LinkOf(blocks[i]))
    ensures ScanEvents(saved, blocks) == []
  {
    if blocks != [] {
      var n := |blocks| - 1;
      EventsStep(saved, blocks, n);
      assert blocks[..n + 1] == blocks;
      assert forall j :: 0 <= j < n ==> blocks[..n][j] == blocks[j];
      QuietScan(saved, blocks[..n]);
    }
  }

  /** A pass over a page that shows exactly the saved links at their saved
      prices emits no event, and the new snapshot has the saved keys and
      prices. */
  lemma NoOpPass(saved: Snapshot, blocks: seq<Block>)
    requires forall i :: 0 <= i < |blocks| && blocks[i].href.Some? ==>
               LinkOf(blocks[i]) in saved && PriceText(blocks[i]) == SavedPrice(saved, LinkOf(blocks[i]))
    requires forall k :: k in saved ==> exists i :: 0 <= i < |blocks| && LinksTo(blocks[i], k)
    ensures ScanEvents(saved, blocks) == []
    ensures Gone(saved, blocks) == {}
    ensures Current(blocks).Keys == saved.Keys
    ensures forall k :: k in Current(blocks) ==>
              PriceKey in Current(blocks)[k] && Current(blocks)[k][PriceKey] == SavedPrice(saved, k)
  {
    QuietScan(saved, blocks);
    forall k | k in saved || k in Current(blocks)
      ensures k in Current(blocks) <==> k in saved
      ensures k in Current(blocks) ==> PriceKey in Current(blocks)[k] && Current(blocks)[k][PriceKey] == SavedPrice(saved, k)
    {
      CurrentEntry(blocks, k);
    }
  }

  /** The guard looks at the product blocks, not at their links: a page whose
      blocks all lack a product link passes it, and then every saved product
      is reported removed and the empty snapshot is saved. */
  lemma {:induction false} LinklessBlocksWipe(saved: Snapshot, blocks: seq<Block>)
    requires forall i :: 0 <= i < |blocks| ==> blocks[i].href.None?
    ensures Observed(blocks) == [] && ScanEvents(saved, blocks) == []
    ensures Current(blocks) == map[] && Gone(saved, blocks) == saved.Keys
  {
    if blocks != [] {
      var n := |blocks| - 1;
      ObservedStep(blocks, n);
      EventsStep(saved, blocks, n);
      assert blocks[..n + 1] == blocks;
      assert forall j :: 0 <= j < n ==> blocks[..n][j] == blocks[j];
      LinklessBlocksWipe(saved, blocks[..n]);
    }
  }

  /** A removal list for a single link is that link's one Removed event. */
  lemma SingleRemoval(events: seq<Event>, saved: Snapshot, link: string)
    requires link in saved
    requires IsRemovalList(events, saved, {link})
    ensures events == [Removed(link, SavedName(saved, link))]
  {
    assert |events| == 1;
  }

  // Scenarios: one product block `b` on the page, saved before at some price.

  /** A real price change fires exactly one PriceChanged event with the saved price. */
  lemma RealPriceChange(b: Block, saved: Snapshot)
    requires b.href.Some? && b.price == Some("12")
    requires saved == map[LinkOf(b) := map[LinkKey := LinkOf(b), PriceKey := "10"]]
    ensures ScanEvents(saved, [b]) == [PriceChanged(RecordOf(b), "10")]
    ensures Gone(saved, [b]) == {}
  {
    assert [b][..0] == [];
    ObservedStep([b], 0);
    assert Current([b]).Keys == {LinkOf(b)};
    assert saved.Keys == {LinkOf(b)};
  }

  /** A missing price tag fires nothing, and the placeholder is what is saved. */
  lemma MissingPriceDoesNotFire(b: Block, saved: Snapshot)
    requires b.href.Some? && b.price == None
    requires saved == map[LinkOf(b) := map[LinkKey := LinkOf(b), PriceKey := "10"]]
    ensures ScanEvents(saved, [b]) == []
    ensures LinkOf(b) in Current([b]) && Current([b])[LinkOf(b)][PriceKey] == PriceNotFound
  {
    assert [b][..0] == [];
    ObservedStep([b], 0);
  }

  /** A saved placeholder followed by a real price does fire. */
  lemma FoundPriceAfterPlaceholderFires(b: Block, saved: Snapshot)
    requires b.href.Some? && b.price == Some("12")
    requires saved == map[LinkOf(b) := map[LinkKey := LinkOf(b), PriceKey := PriceNotFound]]
    ensures ScanEvents(saved, [b]) == [PriceChanged(RecordOf(b), PriceNotFound)]
  {
    assert [b][..0] == [];
  }

  /** A saved product that is no longer on the page is the one removal; its
      saved object has no name, so the event carries the default. */
  lemma RemovedProduct(b: Block, gone: string, saved: Snapshot, events: seq<Event>)
    requires b.href.Some? && gone != LinkOf(b)
    requires saved == map[LinkOf(b) := RecordOf(b), gone := map[LinkKey := gone]]
    requires IsRemovalList(events, saved, Gone(saved, [b]))
    ensures events == [Removed(gone, NameNotAvailable)]
    ensures Current([b]).Keys == {LinkOf(b)}
  {
    assert [b][..0] == [];
    ObservedStep([b], 0);
    assert Gone(saved, [b]) == {gone};
    SingleRemoval(events, saved, gone);
  }
}
