# Berzerk outlet monitor: the snapshot reconciler, in Dafny

The monitor (main.py) scrapes the outlet listing page of berzerk.com.br,
compares the products it sees with the snapshot it saved on the previous
pass, sends a Telegram message for every new product, every price change and
every product that is gone, and saves the products it saw as the next
snapshot. This project models the part of that pass that decides what
happened, and proves what it promises:

- `MarkdownV2` (markdown.dfy): `escape_markdown_v2`, which puts a backslash
  before each of the 18 characters Telegram's MarkdownV2 format reserves.
- `Persistence` (persistence.dfy): the two conversions of the memory file:
  the list of product objects becomes a dictionary keyed by `link` on load,
  and the dictionary's values become the list on save. Products are JSON
  objects (`map<string, string>`), so a missing field is what it is in the
  file; Python's dictionary insertion order is modelled explicitly, as the
  sequence of keys in the order they were first inserted.
- `Reconciler` (reconciler.dfy): the body of `monitor_berzerk` between the
  fetch and the end of the save. What HTML extraction yields for each
  product block (its product href, title text and price text, each possibly
  missing) is the input; the notifications are an output sequence of events
  `NewProduct(record)`, `PriceChanged(record, oldPrice)` and
  `Removed(link, name)`; the list handed to the save is the other output.
  The two loops of the source are two methods, `ScanBlocks` and
  `ReportRemoved`, each proved against a specification function
  (`ScanEvents`, `Current`, `KeyOrder`; `IsRemovalList`), and `MonitorPass`
  puts them together behind the empty-page guard.
- `ReconcilerProperties` (reconciler_properties.dfy): what follows about a
  pass: new-product and price-change detection, where the new snapshot
  comes from, the no-op pass, and a few concrete scenarios.
- `Wrappers` (wrappers.dfy): an `Option` type.

Behaviour of the code that a reader might not expect, modelled as written:

- The guard at main.py:77-79 tests for product blocks, not for products with
  a link. A page whose blocks all lack a product link passes it, every saved
  product is then reported removed and the empty list is saved
  (`ReconcilerProperties.LinklessBlocksWipe`).
- Removed links are not sorted; they are reported in the iteration order of
  a set, which the model leaves unspecified.
- A no-op pass reproduces the saved keys and prices, not the saved objects:
  the new objects are built from the page, so a name that changed, or a
  field missing from the file, is not kept.
- Besides the page placeholders "Name not found" and "Price not found", the
  code reads saved objects with the defaults "Price not saved" and "Name not
  available"; both are modelled.

## Model

| member | source | states |
|---|---|---|
| `MarkdownV2.Escape` | main.py:26-29 | The output is as long as the input plus its number of reserved characters; it never starts with a reserved character and every later reserved character follows a backslash. |
| `MarkdownV2.EscapeChar` | main.py:28-29 | What the substitution puts in place of one character of the class `[_*\[\]()~\`>#+\-=\|{}.!]`: that character, preceded by a backslash exactly when it is reserved. |
| `MarkdownV2.BackslashNotReserved` | main.py:28 | The backslash the replacement inserts is not in the character class. |
| `MarkdownV2.EscapeAt` | main.py:28-29 | Input character i lands at position i plus the number of reserved characters before it, preceded by an inserted backslash exactly when it is reserved: everything else is copied unchanged and in order. |
| `MarkdownV2.EscapeAppend` | main.py:29 | Escaping works character by character: it distributes over concatenation. |
| `MarkdownV2.UnescapeEscape` | main.py:28-29 | Removing each backslash that precedes a reserved character recovers the input. |
| `MarkdownV2.Unescape` | main.py:28-29 | Not in the source: the inverse that the round-trip property `UnescapeEscape` is stated with (drop a backslash before a reserved character); its own contract only bounds its length. |
| `MarkdownV2.EscapeKeepsReservedCount` | main.py:28 | The inserted backslashes are not reserved, so escaping keeps the number of reserved characters. |
| `MarkdownV2.EscapeTwice` | main.py:28-29 | Escaping twice adds two characters per reserved character. |
| `MarkdownV2.EscapeTwiceCons` | main.py:28-29 | Escaping twice, character by character: a reserved character becomes two backslashes followed by it, any other character is copied. |
| `MarkdownV2.EscapeIdempotentIff` | main.py:28-29 | Escaping is idempotent on a text exactly when the text holds no reserved character. |
| `MarkdownV2.EscapeUnchangedIff` | main.py:28-29 | Escaping leaves a text unchanged exactly when no character of it is reserved. |
| `MarkdownV2.CountReservedZero` | main.py:28 | A text has no reserved character exactly when its count of them is zero. |
| `MarkdownV2.EscapeIdentity` | main.py:28-29 | A text without reserved characters is its own escape. |
| `MarkdownV2.EscapeDotTwice` | main.py:28-29 | "." escapes to "\." and escaping again gives "\\.". |
| `Persistence.Get` | main.py:126 | `dict.get` (also at main.py:151): the field's value when the object has the field, the default otherwise. |
| `Persistence.Index` | main.py:39 | The dictionary built from a list of objects files every entry under its own link, and its keys are exactly the links of the list. |
| `Persistence.InLinks` | main.py:39 | A link is among the list's links exactly when some object of the list carries it. |
| `Persistence.IndexLastWins` | main.py:39 | The entry for a link is the last object in the list with that link. |
| `Persistence.IndexSnoc` | main.py:39 | Proof helper: one more object updates the dictionary at its link, and extends the insertion order only when the link is new. |
| `Persistence.Load` | main.py:39-40 | Loading succeeds exactly when every object has a link (otherwise the comprehension raises KeyError, which neither load_saved_data nor monitor_berzerk catches; run_task does, see `Reconciler.RunPass`); the result is keyed by link and its keys are the list's links. |
| `Persistence.KeyOrder` | main.py:109-110 | The order in which a dictionary built from the list first inserts each link, which `list(values())` at main.py:46 follows: only links of the list appear in it. |
| `Persistence.KeyOrderSpec` | main.py:39 | The insertion order of the loaded dictionary holds each of its keys exactly once. |
| `Persistence.KeyOrderHas` | main.py:39 | A link is in the insertion order exactly when it is a key. |
| `Persistence.Values` | main.py:46 | The saved list has one element per key of the insertion order. |
| `Persistence.ValuesAt` | main.py:46 | Element i of the saved list is the entry of the i-th key of the insertion order. |
| `Persistence.ValuesFrame` | main.py:46 | Proof helper: the saved list depends only on the entries of the keys it lists. |
| `Persistence.IndexValues` | main.py:39-46 | Loading the values of a link-keyed dictionary gives back the entries of the keys listed. |
| `Persistence.LoadValues` | main.py:39-46 | Round trip: saving a dictionary whose every entry's link equals its key and loading the list gives the same dictionary. |
| `Persistence.PrefixLinks` | main.py:39 | Proof helper: dropping the last object keeps the links distinct, and the last link is new to the rest. |
| `Persistence.ValuesIndex` | main.py:39-46 | Round trip the other way: a list with distinct links, loaded and saved in insertion order, is the same list. |
| `Reconciler.LinkOfParts` | main.py:90 | A link is BASE_URL followed by the href, so two blocks have the same link exactly when they have the same href. |
| `Reconciler.NameText` | main.py:93-94 | The title text when the block has a title tag, "Name not found" otherwise. |
| `Reconciler.PriceText` | main.py:105-107 | The price text when the block has a price tag, "Price not found" otherwise. |
| `Reconciler.RecordOf` | main.py:90-109 | The object built for a block carries BASE_URL plus the href as its link, the title text or "Name not found" as its name, and the price text or "Price not found" as its price. |
| `Reconciler.RecordFields` | main.py:109 | That object has exactly the fields link, name and price. |
| `Reconciler.SavedDefaults` | main.py:126-151 | A saved price or name is read as it is in the file, and as "Price not saved" or "Name not available" when the saved object lacks it. |
| `Reconciler.BlockEventsShape` | main.py:112-137 | One block yields no event without a link, otherwise at most one, about that block's object: a NewProduct event exactly when its link is not saved, and a PriceChanged event only for a saved link, carrying the saved price. |
| `Reconciler.ScanEvents` | main.py:84-137 | The first loop's events, in page order, at most one per block. |
| `Reconciler.Observed` | main.py:84-110 | Every object observed on the page has a link. |
| `Reconciler.Current` | main.py:71-110 | current_products_on_page after the first loop: every entry is filed under its own link. |
| `Reconciler.CurrentKeys` | main.py:109-110 | Its keys are exactly the links of the observed objects. |
| `Reconciler.GonePartition` | main.py:142-145 | removed_links: a link is removed exactly when it is saved and not on the page; every saved link is either removed or on the page, never both. |
| `Reconciler.RemovalListLinks` | main.py:145-151 | A valid second-loop output names exactly the removed links, each event being Removed with that link's saved name. |
| `Reconciler.ObservedStep` | main.py:86-110 | Proof helper: a block without a product link is skipped; one with a link adds its object and updates the new snapshot at that link. |
| `Reconciler.OrderStep` | main.py:110 | Proof helper: a block extends the new snapshot's insertion order only when its link is not in it yet. |
| `Reconciler.EventsStep` | main.py:112-137 | Proof helper: the events of one more block follow those of the blocks before it. |
| `Reconciler.ScanBlocks` | main.py:71-139 | Loop 1: the snapshot it builds is the dictionary of the observed objects, its insertion order is theirs, and its events are those of the blocks in page order. |
| `Reconciler.RemovalStep` | main.py:149-151 | Proof helper: reporting one more saved link keeps a valid removal list. |
| `Reconciler.ReportRemoved` | main.py:145-158 | Loop 2: exactly one Removed event per removed link, each carrying the saved name or "Name not available", in any order. |
| `Reconciler.MonitorPass` | main.py:71-162 | No product block: no event and no save. Otherwise the first loop's events in page order, then exactly one Removed event per saved key no longer on the page, and the values of the new snapshot are saved; loading them gives back that snapshot. |
| `Reconciler.RunPass` | main.py:60-79 | A run from the memory file's list: when an object lacks "link" the KeyError ends the run before the guard, with no event and no save; otherwise no product block means no event and no save, and a completed pass is MonitorPass on the loaded snapshot (load at main.py:39, the catch at main.py:178-181). |
| `ReconcilerProperties.NewlyListedAppend` | main.py:113-122 | Proof helper: the NewProduct events of two runs of events are those of the first then those of the second. |
| `ReconcilerProperties.UnsavedAppend` | main.py:113 | Proof helper: the unsaved objects of two lists are those of the first then those of the second. |
| `ReconcilerProperties.NewDetection` | main.py:113-122 | The NewProduct events are exactly the observed objects whose link is not saved, one per occurrence, in page order. |
| `ReconcilerProperties.PriceChangedIff` | main.py:124-137 | PriceChanged(r, old) is emitted exactly when some block with a saved link shows a found price text different from the saved price (default "Price not saved"); a missing price tag never fires, a saved "Price not found" followed by a real price does. |
| `ReconcilerProperties.ScanEventsKinds` | main.py:84-139 | The first loop emits only NewProduct and PriceChanged events, at most one per observed object. |
| `ReconcilerProperties.CurrentEntry` | main.py:86-110 | The new snapshot's keys are exactly the links of the blocks that have one, and each entry is the object of a block with that link: nothing is carried over from the saved snapshot. |
| `ReconcilerProperties.CurrentLastWins` | main.py:109-110 | Each key of the new snapshot maps to the object of the last block with that link. |
| `ReconcilerProperties.QuietScan` | main.py:113-127 | A page of saved links at their saved prices makes the first loop silent. |
| `ReconcilerProperties.NoOpPass` | main.py:113-145 | A page showing exactly the saved links at their saved prices emits no event, removes nothing, and the new snapshot has the saved keys and prices. |
| `ReconcilerProperties.LinklessBlocksWipe` | main.py:77-88 | Blocks that all lack a product link pass the guard: no object is observed, the new snapshot is empty and every saved link counts as removed. |
| `ReconcilerProperties.SingleRemoval` | main.py:145-151 | A removal list for one link is that link's single Removed event with its saved name. |
| `ReconcilerProperties.RealPriceChange` | main.py:126-127 | A product saved at "10" and shown at "12": one PriceChanged event with old price "10", nothing removed. |
| `ReconcilerProperties.MissingPriceDoesNotFire` | main.py:105-127 | A product saved at "10" and shown without a price tag: no event, and "Price not found" is its price in the new snapshot. |
| `ReconcilerProperties.FoundPriceAfterPlaceholderFires` | main.py:126-127 | A product saved at "Price not found" and shown at "12": one PriceChanged event with old price "Price not found". |
| `ReconcilerProperties.RemovedProduct` | main.py:142-151 | Two saved products, the page shows one: the other is the one removal, named "Name not available" since its saved object has no name, and the new snapshot holds only the product shown. |

## Left out

- HTTP fetching (main.py:67-68) and HTML parsing with BeautifulSoup (main.py:69, 75, 86-107): each product block arrives already extracted as a `Block`; the choice between sale and regular price tag, the `/products/` href pattern and `.strip()` happen inside that extraction.
- Message texts and emojis (main.py:115-121, 129-136, 153-157) and sending them to Telegram (main.py:49-56): the model emits the events the messages are made from. A failed send is only printed in the source, so it changes nothing modelled.
- The one-second pauses (main.py:139, 159): timing only.
- Reading and writing the memory file (main.py:33-41, 45-47): a missing or undecodable file reading as empty, JSON values other than strings, and a failing write are not modelled; only the two conversions are.
- The scheduler, the printing in `run_task` and the credential placeholder check (main.py:175-200): process plumbing; that run_task catches a failed run is the `None` of `Reconciler.RunPass`.
- The exception handlers (main.py:167-171): the modelled pass cannot fail once its inputs are given; in the source any failure before main.py:162 skips the save, which is the last step of `MonitorPass` as well.
- The order of Removed events: a Python set's iteration order is not modelled; `ReportRemoved` may report the links in any order.
- Persistence.Values: its own contract states only the length of the list; the element-wise content is stated by `Persistence.ValuesAt`.
