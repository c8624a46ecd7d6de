/** One monitoring pass of monitor_berzerk (main.py) with its I/O taken out:
    the products observed on the outlet page are compared with the snapshot
    saved by the previous pass, every difference becomes an event, and the
    products observed, and only those, become the snapshot to save. */
module Reconciler {
  import opened Wrappers
  import opened Persistence

  const BaseUrl: string := "https://berzerk.com.br"

  /** Placeholders for a field the page or the memory file does not provide. */
  const NameNotFound: string := "Name not found"
  const PriceNotFound: string := "Price not found"
  const PriceNotSaved: string := "Price not saved"
  const NameNotAvailable: string := "Name not available"

  /** What HTML extraction yields for one product block of the page: the href
      of its product link and the (stripped) text of its title and price tags,
      each None when the tag is missing. */
  datatype Block = Block(href: Option<string>, name: Option<string>, price: Option<string>)

  /** A notification, before it is formatted and sent. */
  datatype Event =
    | NewProduct(product: Record)
    | PriceChanged(product: Record, oldPrice: string)
    | Removed(link: string, name: string)

  /** A pass either refuses to run because the page has no product blocks,
      or completes with its events and the list written to the memory file. */
  datatype PassOutcome =
    | NoProductBlocks
    | Completed(events: seq<Event>, written: seq<Record>)

  /** `BASE_URL + link_tag['href']`. */
  function LinkOf(b: Block): string
    requires b.href.Some?
  {
    BaseUrl + b.href.value
  }

  /** A link is the page's base address followed by the href, so two blocks
      have the same link exactly when they have the same href. */
  lemma LinkOfParts(a: Block, b: Block)
    requires a.href.Some? && b.href.Some?
    ensures LinkOf(a)[..|BaseUrl|] == BaseUrl && LinkOf(a)[|BaseUrl|..] == a.href.value
    ensures LinkOf(a) == LinkOf(b) <==> a.href == b.href
  {
    if LinkOf(a) == LinkOf(b) {
      assert a.href.value == LinkOf(a)[|BaseUrl|..] == LinkOf(b)[|BaseUrl|..] == b.href.value;
    }
  }

  /** The title text, or "Name not found" when the block has no title tag. */
  function NameText(b: Block): (name: string)
    ensures b.name.Some? ==> name == b.name.value
    ensures b.name.None? ==> name == NameNotFound
  {
    b.name.GetOr(NameNotFound)
  }

  /** The price text, or "Price not found" when the block has no price tag. */
  function PriceText(b: Block): (price: string)
    ensures b.price.Some? ==> price == b.price.value
    ensures b.price.None? ==> price == PriceNotFound
  {
    b.price.GetOr(PriceNotFound)
  }

  predicate LinksTo(b: Block, link: string) {
    b.href.Some? && LinkOf(b) == link
  }

  /** The product object built for a block that has a link: exactly the
      fields link, name and price, the latter two with their placeholders. */
  function RecordOf(b: Block): (r: Record)
    requires b.href.Some?
    ensures HasLink(r) && r[LinkKey] == LinkOf(b)
    ensures NameKey in r && r[NameKey] == NameText(b)
    ensures PriceKey in r && r[PriceKey] == PriceText(b)
  {
    map[LinkKey := LinkOf(b), NameKey := NameText(b), PriceKey := PriceText(b)]
  }

  /** The object built for a block has no field besides link, name and price. */
  lemma RecordFields(b: Block)
    requires b.href.Some?
    ensures RecordOf(b).Keys == {LinkKey, NameKey, PriceKey}
  {
  }

  /** The saved price of a known product, as `.get('price', 'Price not saved')`. */
  function SavedPrice(saved: Snapshot, link: string): string
    requires link in saved
  {
    Get(saved[link], PriceKey, PriceNotSaved)
  }

  /** The saved name of a known product, as `.get('name', 'Name not available')`. */
  function SavedName(saved: Snapshot, link: string): string
    requires link in saved
  {
    Get(saved[link], NameKey, NameNotAvailable)
  }

  /** A saved field is read as it is in the file, or as its default when the
      saved object lacks it. */
  lemma SavedDefaults(saved: Snapshot, link: string)
    requires link in saved
    ensures PriceKey in saved[link] ==> SavedPrice(saved, link) == saved[link][PriceKey]
    ensures PriceKey !in saved[link] ==> SavedPrice(saved, link) == PriceNotSaved
    ensures NameKey in saved[link] ==> SavedName(saved, link) == saved[link][NameKey]
    ensures NameKey !in saved[link] ==> SavedName(saved, link) == NameNotAvailable
  {
  }

  /** The events the first loop emits for one block. */
  function BlockEvents(saved: Snapshot, b: Block): seq<Event> {
    if b.href.None? then []
    else if LinkOf(b) !in saved then [NewProduct(RecordOf(b))]
    else if PriceText(b) != SavedPrice(saved, LinkOf(b)) && PriceText(b) != PriceNotFound
    then [PriceChanged(RecordOf(b), SavedPrice(saved, LinkOf(b)))]
    else []
  }

  /** The events of the first loop over the blocks, in page order: at most
      one per block. */
  function ScanEvents(saved: Snapshot, blocks: seq<Block>): (events: seq<Event>)
    ensures |events| <= |blocks|
  {
    if blocks == [] then []
    else ScanEvents(saved, blocks[..|blocks| - 1]) + BlockEvents(saved, blocks[|blocks| - 1])
  }

  /** The product objects of the blocks that have a link, in page order. */
  function Observed(blocks: seq<Block>): (records: seq<Record>)
    ensures AllHaveLinks(records)
  {
    if blocks == [] then []
    else
      var last := blocks[|blocks| - 1];
      Observed(blocks[..|blocks| - 1]) + (if last.href.Some? then [RecordOf(last)] else [])
  }

  /** current_products_on_page at the end of the first loop: each observed
      object filed under its own link (its keys are CurrentKeys). */
  function Current(blocks: seq<Block>): (current: Snapshot)
    ensures KeyedByLink(current)
  {
    Index(Observed(blocks))
  }

  /** The links of the second loop: saved, but no longer on the page. */
  function Gone(saved: Snapshot, blocks: seq<Block>): set<string> {
    saved.Keys - Current(blocks).Keys
  }

  /** The events of the second loop: one Removed event for each link of
      `gone`, in any order, carrying the saved name. */
  predicate IsRemovalList(events: seq<Event>, saved: Snapshot, gone: set<string>) {
    && |events| == |gone|
    && (forall i :: 0 <= i < |events| ==>
          && events[i].Removed?
          && events[i].link in gone
          && events[i].link in saved
          && events[i].name == SavedName(saved, events[i].link))
    && (forall i, j :: 0 <= i < j < |events| ==> events[i].link != events[j].link)
    && (forall k :: k in gone ==> exists i :: 0 <= i < |events| && events[i].link == k)
  }

  /** A block yields no event without a link, otherwise at most one, about
      that block's object: a NewProduct event exactly when the link is not
      saved, a PriceChanged event carrying the saved price otherwise. */
  lemma BlockEventsShape(saved: Snapshot, b: Block)
    ensures |BlockEvents(saved, b)| <= 1
    ensures b.href.None? ==> BlockEvents(saved, b) == []
    ensures forall e :: e in BlockEvents(saved, b) ==> b.href.Some? && !e.Removed? && e.product == RecordOf(b)
    ensures b.href.Some? ==>
              (LinkOf(b) !in saved <==> BlockEvents(saved, b) == [NewProduct(RecordOf(b))])
    ensures forall e :: e in BlockEvents(saved, b) && e.PriceChanged? ==>
              LinkOf(b) in saved && e.oldPrice == SavedPrice(saved, LinkOf(b))
  {
  }

  /** The keys of the new snapshot are exactly the links observed. */
  lemma CurrentKeys(blocks: seq<Block>)
    ensures Current(blocks).Keys == Links(Observed(blocks))
  {
  }

  /** Every saved link is either gone or still on the page, never both, and
      only saved links are gone. */
  lemma GonePartition(saved: Snapshot, blocks: seq<Block>, link: string)
    ensures link in Gone(saved, blocks) <==> link in saved && link !in Current(blocks)
    ensures Gone(saved, blocks) <= saved.Keys
    ensures Gone(saved, blocks) !! Current(blocks).Keys
  {
  }

  /** A removal list names exactly the links of `gone`, each once. */
  lemma RemovalListLinks(events: seq<Event>, saved: Snapshot, gone: set<string>)
    requires IsRemovalList(events, saved, gone)
    ensures (set i | 0 <= i < |events| :: events[i].link) == gone
    ensures forall i :: 0 <= i < |events| ==> events[i] == Removed(events[i].link, SavedName(saved, events[i].link))
  {
    var links := set i | 0 <= i < |events| :: events[i].link;
    forall k | k in gone ensures k in links {
      var i :| 0 <= i < |events| && events[i].link == k;
    }
  }

  /** What one more block adds to the observed products and the new snapshot. */
  lemma ObservedStep(blocks: seq<Block>, i: nat)
    requires i < |blocks|
    ensures Observed(blocks[..i + 1]) ==
              Observed(blocks[..i]) + (if blocks[i].href.Some? then [RecordOf(blocks[i])] else [])
    ensures Current(blocks[..i + 1]) ==
              if blocks[i].href.Some? then Current(blocks[..i])[LinkOf(blocks[i]) := RecordOf(blocks[i])]
              else Current(blocks[..i])
  {
    var b := blocks[i];
    assert blocks[..i + 1][..i] == blocks[..i];
    if b.href.Some? {
      IndexSnoc(Observed(blocks[..i]), RecordOf(b));
    } else {
      assert Observed(blocks[..i + 1]) == Observed(blocks[..i]);
    }
  }

  /** What one more block adds to the insertion order of the new snapshot. */
  lemma OrderStep(blocks: seq<Block>, i: nat)
    requires i < |blocks|
    ensures KeyOrder(Observed(blocks[..i + 1])) ==
              if blocks[i].href.None? || LinkOf(blocks[i]) in KeyOrder(Observed(blocks[..i]))
              then KeyOrder(Observed(blocks[..i]))
              else KeyOrder(Observed(blocks[..i])) + [LinkOf(blocks[i])]
  {
    var b, list := blocks[i], Observed(blocks[..i]);
    assert blocks[..i + 1][..i] == blocks[..i];
    if b.href.Some? {
      assert Observed(blocks[..i + 1]) == list + [RecordOf(b)];
      IndexSnoc(list, RecordOf(b));
    } else {
      assert Observed(blocks[..i + 1]) == list;
    }
  }

  /** What one more block adds to the events of the first loop. */
  lemma EventsStep(saved: Snapshot, blocks: seq<Block>, i: nat)
    requires i < |blocks|
    ensures ScanEvents(saved, blocks[..i + 1]) == ScanEvents(saved, blocks[..i]) + BlockEvents(saved, blocks[i])
  {
    assert blocks[..i + 1][..i] == blocks[..i];
  }

  /** Loop 1 of monitor_berzerk: every block with a product link is filed in
      the new snapshot under its link (a later block replacing an earlier
      one), and is reported as new when the saved snapshot does not know its
      link, or as repriced when its price text differs from the saved one and
      is not the placeholder. `order` is the dictionary's insertion order. */
  method ScanBlocks(saved: Snapshot, blocks: seq<Block>)
    returns (current: Snapshot, order: seq<string>, events: seq<Event>)
    ensures current == Current(blocks)
    ensures order == KeyOrder(Observed(blocks))
    ensures events == ScanEvents(saved, blocks)
  {
    current, order, events := map[], [], [];
    for i := 0 to |blocks|
      invariant current == Current(blocks[..i])
      invariant order == KeyOrder(Observed(blocks[..i]))
      invariant events == ScanEvents(saved, blocks[..i])
    {
      var block := blocks[i];
      ObservedStep(blocks, i);
      OrderStep(blocks, i);
      EventsStep(saved, blocks, i);
      if block.href.Some? {
        var link := BaseUrl + block.href.value;
        KeyOrderHas(Observed(blocks[..i]), link);
        var name := block.name.GetOr(NameNotFound);
        var price := block.price.GetOr(PriceNotFound);
        var info: Record := map[LinkKey := link, NameKey := name, PriceKey := price];
        assert info == RecordOf(block);
        if link !in current {
          order := order + [link];
        }
        current := current[link := info];
        if link !in saved {
          assert BlockEvents(saved, block) == [NewProduct(info)];
          events := events + [NewProduct(info)];
        } else {
          var savedPrice := Get(saved[link], PriceKey, PriceNotSaved);
          assert savedPrice == SavedPrice(saved, link);
          if price != savedPrice && price != PriceNotFound {
            assert BlockEvents(saved, block) == [PriceChanged(info, savedPrice)];
            events := events + [PriceChanged(info, savedPrice)];
          } else {
            assert BlockEvents(saved, block) == [];
          }
        }
      }
    }
    assert blocks[..|blocks|] == blocks;
  }

  /** Reporting one more link keeps a removal list. */
  lemma RemovalStep(events: seq<Event>, saved: Snapshot, gone: set<string>, link: string)
    requires IsRemovalList(events, saved, gone)
    requires link in saved && link !in gone
    ensures IsRemovalList(events + [Removed(link, SavedName(saved, link))], saved, gone + {link})
  {
    var e := events + [Removed(link, SavedName(saved, link))];
    assert forall i :: 0 <= i < |events| ==> e[i] == events[i];
    forall k | k in gone + {link}
      ensures exists i :: 0 <= i < |e| && e[i].link == k
    {
      if k == link {
        assert e[|events|].link == k;
      } else {
        var i :| 0 <= i < |events| && events[i].link == k;
        assert e[i].link == k;
      }
    }
  }

  /** Loop 2 of monitor_berzerk: one Removed event per link of `removed`,
      taken in the iteration order of the set. */
  method ReportRemoved(saved: Snapshot, removed: set<string>) returns (removals: seq<Event>)
    requires removed <= saved.Keys
    ensures IsRemovalList(removals, saved, removed)
  {
    var rest := removed;
    removals := [];
    while rest != {}
      invariant rest <= removed
      invariant IsRemovalList(removals, saved, removed - rest)
      decreases |rest|
    {
      var link :| link in rest;
      RemovalStep(removals, saved, removed - rest, link);
      assert removed - (rest - {link}) == (removed - rest) + {link};
      removals := removals + [Removed(link, Get(saved[link], NameKey, NameNotAvailable))];
      rest := rest - {link};
    }
    assert removed - rest == removed;
  }

  /** The reconciliation body of monitor_berzerk. With no product block on
      the page it stops before anything is emitted or saved. Otherwise the
      events of the first loop come first, in page order, then one Removed
      event per saved link no longer on the page; the values of the new
      snapshot are what is saved, and loading them back gives that snapshot. */
  method MonitorPass(saved: Snapshot, blocks: seq<Block>) returns (outcome: PassOutcome)
    ensures outcome.NoProductBlocks? <==> blocks == []
    ensures outcome.Completed? ==>
              var scanned := ScanEvents(saved, blocks);
              && |scanned| <= |outcome.events|
              && outcome.events[..|scanned|] == scanned
              && IsRemovalList(outcome.events[|scanned|..], saved, Gone(saved, blocks))
    ensures outcome.Completed? ==> outcome.written == Values(Current(blocks), KeyOrder(Observed(blocks)))
    ensures outcome.Completed? ==> Load(outcome.written) == Some(Current(blocks))
  {
    if blocks == [] {
      return NoProductBlocks;
    }
    var current, order, events := ScanBlocks(saved, blocks);
    var removals := ReportRemoved(saved, saved.Keys - current.Keys);
    KeyOrderSpec(Observed(blocks));
    LoadValues(current, order);
    outcome := Completed(events + removals, Values(current, order));
    assert outcome.events[..|events|] == events;
    assert outcome.events[|events|..] == removals;
  }

  /** A whole run of monitor_berzerk from the list held in the memory file.
      When an object of the list lacks "link", load_saved_data raises
      KeyError, which neither it nor monitor_berzerk catches (the call sits
      before the try block): the pass ends before the guard, emits nothing and
      saves nothing, and run_task reports the error (None). Otherwise the pass
      runs on the loaded snapshot. */
  method RunPass(file: seq<Record>, blocks: seq<Block>) returns (outcome: Option<PassOutcome>)
    ensures outcome.None? <==> !AllHaveLinks(file)
    ensures outcome.Some? ==> (outcome.value.NoProductBlocks? <==> blocks == [])
    ensures outcome.Some? && outcome.value.Completed? && Load(file).Some? ==>
              var saved, pass := Load(file).value, outcome.value;
              var scanned := ScanEvents(saved, blocks);
              && |scanned| <= |pass.events|
              && pass.events[..|scanned|] == scanned
              && IsRemovalList(pass.events[|scanned|..], saved, Gone(saved, blocks))
              && pass.written == Values(Current(blocks), KeyOrder(Observed(blocks)))
  {
    var loaded := Load(file);
    if loaded.None? {
      return None;
    }
    var pass := MonitorPass(loaded.value, blocks);
    return Some(pass);
  }
}
