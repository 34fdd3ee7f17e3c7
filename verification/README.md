# Sprite layout: shelf packing, layout generation and metadata checks

This project models the core of a sprite-sheet generator and proves properties
of the model. The generator takes a list of SVG icons, renders each one at a
pixel ratio, packs the rendered images onto one sheet with a shelf packer, and
produces one of two layouts:

- an image layout: the sheet's width and height plus every packed item with its
  position;
- a data layout: one entry per icon id, with size, position, pixel ratio and any
  stretch or placeholder metadata.

Five pieces are modelled.

- **Shelf packer** (`shelf_choice.dfy`, `shelf_pack.dfy`). The canvas holds
  horizontal shelves. A request for a `w` x `h` bin is placed in this order:
  1. a vacated ("free") bin of exactly that size;
  2. a shelf of exactly that height with room;
  3. the least wasteful fitting free bin or taller shelf;
  4. a new shelf under the last one.

  With automatic resizing, the canvas doubles in width or in height until the
  request fits. `ShelfPack` is a class whose fields are updated in place: the
  shelves, the free list, the id map, the per-height statistics and the id
  counter. Bins are objects that callers keep references to, and
  `ref`/`unref` count those references. `ShelfChoice` holds the pure placement
  decision, so the methods can state exactly where a bin lands. The batch
  `pack` answers its requests in order; the predicate `Answered` says what
  each answer is (the key it is filed under, the live bin it got, and when it
  may go unplaced), and with `inPlace` the request records, held in an array,
  get their positions written back.
- **Images** (`sprite_images.dfy`):
  - option normalisation;
  - the height-then-id comparator;
  - turning one icon into an image or into nothing, depending on the rendering
    outcome and the removal flags;
  - the filter-and-sort of `createImages`.
- **Grouping by signature** (`sprite_groups.dfy`): the two tables
  `generateLayoutUnique` builds from its inputs, and its filter that keeps one
  representative per signature.
- **Layout** (`sprite_layout.dfy`):
  - packing the images in place on an auto-resizing packer; the predicate
    `Packing` says that every first image of an id lies inside the returned
    sheet and overlaps no other, and that a repeated id shares its first
    image's position;
  - the image layout;
  - the data layout of `generateLayout`;
  - the shared data layout of `generateLayoutUnique`, where every id with the
    same SVG refers to the same entry.
- **Supporting pieces** (`metadata.dfy`, `fixtures.dfy`, `text_order.dfy`,
  `js_value.dfy`):
  - `validateMetadata` over JSON-like values;
  - the fixture normaliser that rebuilds a value by assigning every object's
    names, sorted, into an empty object;
  - JavaScript's string order, which compares UTF-16 code units, and the
    default array sort;
  - a small JSON-like value type whose objects keep their properties in
    JavaScript's enumeration order (section 10.1.11.1 of ECMA-262): array
    indices (section 6.1.7) first, in numeric order, then the other names in
    the order they were added.

Rendering an SVG and extracting its metadata are not modelled. They become
function parameters: `render` returns a size or a refusal with a kind and a
message, and `extract` returns metadata or an error.

## Model

| member | source | states |
|---|---|---|
| ShelfChoice.Settle | packages/shelf-pack/src/__tests__/index.test.ts:630-673 | without automatic resizing the canvas is unchanged; with it the canvas only grows, and on the canvas reached the request finds room |
| ShelfChoice.NoRoomMeansNoNewShelf | packages/shelf-pack/src/__tests__/index.test.ts:301-319 | when no placement is found, a new shelf would not fit either |
| ShelfChoice.ScanFreeKeeps | packages/shelf-pack/src/__tests__/index.test.ts:321-348 | once the free-list scan finds an exact fit, the later entries do not change its result |
| ShelfChoice.ScanShelvesKeeps | packages/shelf-pack/src/__tests__/index.test.ts:203-212 | once the shelf scan finds a shelf of exactly the requested height, the later shelves do not change its result |
| ShelfChoice.ScanFreeMeaning | packages/shelf-pack/src/__tests__/index.test.ts:350-375 | after n entries the free-list scan holds the first exact fit, or else the earliest fitting entry of least waste, or nothing if none fits |
| ShelfChoice.ScanShelvesMeaning | packages/shelf-pack/src/__tests__/index.test.ts:252-299 | after n shelves the shelf scan holds the first shelf of exact height with room; failing that, it holds the candidate it started from or a taller shelf that strictly beats it, wasting no more than the start and than any taller shelf, and strictly less than the earlier ones |
| ShelfChoice.ChooseFits | packages/shelf-pack/src/__tests__/index.test.ts:203-250 | a chosen free bin, shelf or new shelf has room for the request |
| ShelfChoice.ChooseFallsBack | packages/shelf-pack/src/__tests__/index.test.ts:214-250 | a new shelf is opened exactly when no free bin and no shelf fits but a new shelf does; there is no room exactly when nothing fits |
| ShelfChoice.ChooseExactFreeFirst | packages/shelf-pack/src/__tests__/index.test.ts:321-348 | the first free bin of exactly the requested size is reused, whatever the shelves offer |
| ShelfChoice.ChooseExactShelfFirst | packages/shelf-pack/src/__tests__/index.test.ts:377-399 | with no exact free bin, the first shelf of exactly the requested height with room is used, even when a fitting free bin exists |
| ShelfChoice.ChooseLeastWaste | packages/shelf-pack/src/__tests__/index.test.ts:350-439 | without exact fits the choice wastes least: a reused free bin wastes no more than any fitting free bin or taller shelf; a used shelf wastes strictly less than every fitting free bin; ties go to the earlier one |
| ShelfPacking.Bin.constructor | packages/shelf-pack/src/__tests__/index.test.ts:143-152 | a bin has the given id, position, size and maximum size, and no references yet |
| ShelfPacking.Bin.Reuse | packages/shelf-pack/src/__tests__/index.test.ts:321-348 | a vacated bin handed to a new request takes the new id and size, and its count restarts at zero |
| ShelfPacking.Shelf.constructor | packages/shelf-pack/src/__tests__/index.test.ts:214-250 | a new shelf has its cursor at zero and the whole width free |
| ShelfPacking.Shelf.Alloc | packages/shelf-pack/src/__tests__/index.test.ts:301-319 | a request wider than the room left, or taller than the shelf, gets nothing and changes nothing; otherwise a new bin sits at the cursor with the requested size and the shelf's height as its maximum, and the cursor advances by its width |
| ShelfPacking.Shelf.Resize | packages/shelf-pack/src/__tests__/index.test.ts:609-628 | the room left on a shelf changes by the change in canvas width; the cursor stays |
| ShelfPacking.StackedApart | packages/shelf-pack/src/__tests__/index.test.ts:23-38 | a shelf starts at or below the bottom edge of every earlier shelf |
| ShelfPacking.CountAdd | packages/shelf-pack/src/__tests__/index.test.ts:466-499 | registering a new id raises the count of its height by one and leaves the other heights alone |
| ShelfPacking.CountRemove | packages/shelf-pack/src/__tests__/index.test.ts:503-547 | removing an id lowers the count of its height by one |
| ShelfPacking.StatsAdd | packages/shelf-pack/src/__tests__/index.test.ts:479-494 | after a new bin is placed, the statistics still count the live bins per height, with a missing height starting from zero |
| ShelfPacking.StatsRemove | packages/shelf-pack/src/__tests__/index.test.ts:521-540 | when a bin is retired, its height's entry drops by one and stays present |
| ShelfPacking.ResizeShelves | packages/shelf-pack/src/__tests__/index.test.ts:609-628 | every shelf takes the new width; cursors stay and the room left changes by the difference |
| ShelfPacking.Either | packages/shelf-pack/src/__tests__/index.test.ts:59-74 | `a \|\| b` on optional numbers: the result is set and non-zero exactly when one of them is, and a set non-zero `a` wins |
| ShelfPacking.SizeOf | packages/shelf-pack/src/__tests__/index.test.ts:59-74 | a request's size uses `w` over `width` and `h` over `height`; it exists exactly when both chosen values are positive |
| ShelfPacking.NextKey | packages/shelf-pack/src/__tests__/index.test.ts:164-184 | a given id is kept and a numeric one raises the counter to it; a missing id becomes the counter plus one; the counter never decreases |
| ShelfPacking.Progress | packages/shelf-pack/src/__tests__/index.test.ts:76-97 | the records of a batch with its first answers written back: an answered record with its position when asked and placed, every later record as it was |
| ShelfPacking.ProgressStep | packages/shelf-pack/src/__tests__/index.test.ts:76-97 | answering the next request of a batch rewrites that record alone, as `WrittenBack` says |
| ShelfPacking.SomesAppend | packages/shelf-pack/src/__tests__/index.test.ts:99-122 | one more answer adds its bin to the results when it was placed, and nothing when it was skipped |
| ShelfPacking.SomesAll | packages/shelf-pack/src/__tests__/index.test.ts:5-57 | when every request was placed, result j is the bin of request j |
| ShelfPacking.FiledExtended | packages/shelf-pack/src/__tests__/index.test.ts:164-184 | later answers do not change which keys the earlier requests of a batch filed |
| ShelfPacking.FiledStep | packages/shelf-pack/src/__tests__/index.test.ts:164-184 | after one more answer the live ids are those live before the batch and those filed by a placed request of it |
| ShelfPacking.ShelfPack.constructor | packages/shelf-pack/src/__tests__/index.test.ts:7-21 | a new packer has the given size and resize flag; it holds no shelves, bins, free bins or statistics, and its counter is zero |
| ShelfPacking.ShelfPack.BinInCanvas | packages/shelf-pack/src/__tests__/index.test.ts:99-122 | every live bin lies inside the canvas |
| ShelfPacking.ShelfPack.BinsApart | packages/shelf-pack/src/__tests__/index.test.ts:6-57 | no two live bins overlap |
| ShelfPacking.ShelfPack.FreeAllVacated | packages/shelf-pack/src/__tests__/index.test.ts:521-530 | every free-list entry is a slot with a zero count |
| ShelfPacking.ShelfPack.FreedUnreachable | packages/shelf-pack/src/__tests__/index.test.ts:529-530 | a vacated bin is never reachable through its id |
| ShelfPacking.ShelfPack.GetBin | packages/shelf-pack/src/__tests__/index.test.ts:442-463 | returns a bin exactly when the id is live; that bin has the id and at least one reference, and is not on the free list |
| ShelfPacking.ShelfPack.Ref | packages/shelf-pack/src/__tests__/index.test.ts:465-500 | raises a live bin's count by one and returns it; statistics, id map and free list are untouched |
| ShelfPacking.ShelfPack.Unref | packages/shelf-pack/src/__tests__/index.test.ts:502-563 | lowers the count, but not below zero, and returns it; at the last reference the bin leaves the id map, joins the end of the free list and its height's statistic drops by one; otherwise nothing else changes |
| ShelfPacking.ShelfPack.Clear | packages/shelf-pack/src/__tests__/index.test.ts:565-596 | removes all shelves, bins, free bins and statistics and resets the counter; the canvas size stays |
| ShelfPacking.ShelfPack.Resize | packages/shelf-pack/src/__tests__/index.test.ts:609-628 | sets the canvas size, widens every shelf's room by the change in width, keeps every bin and returns true |
| ShelfPacking.ShelfPack.Shrink | packages/shelf-pack/src/__tests__/index.test.ts:598-607 | shrinks the canvas to the bottom of the last shelf and the widest shelf cursor; with no shelves nothing changes |
| ShelfPacking.ShelfPack.AllocShelf | packages/shelf-pack/src/__tests__/index.test.ts:203-212 | places a bin at shelf k's cursor with the requested size and one reference, registers it, and counts its height |
| ShelfPacking.ShelfPack.AllocFreebin | packages/shelf-pack/src/__tests__/index.test.ts:321-348 | the reused free bin leaves the free list and goes live under the new id, with the requested size and one reference |
| ShelfPacking.ShelfPack.AddShelf | packages/shelf-pack/src/__tests__/index.test.ts:214-250 | a new empty shelf of the requested height starts at the bottom edge of the last one |
| ShelfPacking.ShelfPack.Search | packages/shelf-pack/src/__tests__/index.test.ts:350-399 | the search changes nothing and returns exactly the decision `Choose` makes on the current free list, shelves and canvas |
| ShelfPacking.ShelfPack.GrownPlacement | packages/shelf-pack/src/__tests__/index.test.ts:630-658 | a request that finds no room lands where it would land on the canvas one growth step larger |
| ShelfPacking.ShelfPack.OpenShelf | packages/shelf-pack/src/__tests__/index.test.ts:214-250 | opens a shelf as tall as the request at the bottom edge and places the bin at its left end |
| ShelfPacking.ShelfPack.Commit | packages/shelf-pack/src/__tests__/index.test.ts:203-439 | carries out the decision: reuse the chosen free bin, cut at the chosen shelf's cursor, open a new shelf, or change nothing when there is no room |
| ShelfPacking.ShelfPack.Place | packages/shelf-pack/src/__tests__/index.test.ts:630-673 | the bin lands where `Settle` and `Choose` say on the canvas reached, and the packer keeps its invariant |
| ShelfPacking.ShelfPack.Regrow | packages/shelf-pack/src/__tests__/index.test.ts:660-673 | with no room and automatic resizing, the canvas grows one step and the request is placed again |
| ShelfPacking.ShelfPack.PackOne | packages/shelf-pack/src/__tests__/index.test.ts:143-201 | non-positive sizes change nothing; a live id only gains a reference and gets its bin back; otherwise the request is placed under `NextKey`'s key |
| ShelfPacking.ShelfPack.Admit | packages/shelf-pack/src/__tests__/index.test.ts:164-184 | a request whose id is not live is placed under a fresh or given key; with automatic resizing it is always placed |
| ShelfPacking.ShelfPack.PlacementFacts | packages/shelf-pack/src/__tests__/index.test.ts:143-201 | a placement either registers a bin with the request's key and size, or, only without automatic resizing, finds no room and changes no id |
| ShelfPacking.ShelfPack.Answer | packages/shelf-pack/src/__tests__/index.test.ts:143-201 | one batch request is `PackOne` on its size and id: a live id gets its bin back with one more reference and nothing else changes; otherwise the request is filed under `NextKey`'s key and placed as `Placement` says, going unplaced only when `Choose` finds no room; no earlier bin changes id or size |
| ShelfPacking.ShelfPack.AnswerKept | packages/shelf-pack/src/__tests__/index.test.ts:164-184 | answering one request leaves the answer to an earlier one standing: its bin is still live under its key with the same id and size |
| ShelfPacking.ShelfPack.AnswersKept | packages/shelf-pack/src/__tests__/index.test.ts:99-122 | after one more answer every request answered so far, and the new one, is still answered as `Answered` says, with its reissue status unchanged |
| ShelfPacking.ShelfPack.BatchStep | packages/shelf-pack/src/__tests__/index.test.ts:99-122 | one more answer extends the batch: the answers stand, the live ids are those before the batch plus those filed, and the earlier bins stay |
| ShelfPacking.ShelfPack.AnswerNext | packages/shelf-pack/src/__tests__/index.test.ts:5-122 | answering the next request of a batch extends the batch's answers |
| ShelfPacking.ShelfPack.Pack | packages/shelf-pack/src/__tests__/index.test.ts:5-122 | fails exactly when some request lacks a positive size, and then changes nothing; otherwise the results are the placed bins in request order; each request is filed under its own id when it has one; a request goes unplaced only without automatic resizing and never when its id is live; a placed request's bin is live under its key, with the request's size unless its id was live already; with `inPlace` each placed record gets its bin's position and the others stay as they were; with automatic resizing every request is placed and the canvas is shrunk to its shelves |
| ShelfPacking.ShelfPack.PackAll | packages/shelf-pack/src/__tests__/index.test.ts:99-122 | the batch loop: one answer per request, the results are the placed bins in request order, each record is written back as `WrittenBack` says, and every answer is as `Answered` says |
| ShelfPacking.ShelfPack.PackRequest | packages/shelf-pack/src/__tests__/index.test.ts:76-97 | one batch request: its answer is `PackOne`'s placement, extending the batch's answers as `Answered` says; its record alone is written back, with the bin's position when `inPlace` and it was placed |
| ShelfPacking.ShelfPack.WriteBack | packages/shelf-pack/src/__tests__/index.test.ts:76-97 | with `inPlace` a placed request's record takes its bin's position; no other record changes |
| ShelfPacking.ShelfPack.BatchPlaced | packages/shelf-pack/src/__tests__/index.test.ts:630-673 | with automatic resizing every request of a batch is placed |
| ShelfPacking.ShelfPack.ShrinkBatch | packages/shelf-pack/src/__tests__/index.test.ts:598-607 | shrinking the canvas at the end of a batch keeps the answers and brings the height to the bottom shelf and the width to the widest cursor |
| TextOrder.Units | packages/sprites-generate/src/generate.ts:14 | a character is one UTF-16 code unit below U+10000 and two above it, each below 0x10000 |
| TextOrder.Utf16 | packages/sprites-generate/src/generate.ts:14 | a string has between one and two code units per character |
| TextOrder.UnitsLead | packages/sprites-generate/src/generate.ts:14 | two encodings that agree decode to the same first character and the same rest |
| TextOrder.Utf16Injective | packages/sprites-generate/src/generate.ts:14 | different strings have different UTF-16 encodings |
| TextOrder.AstralFirst | packages/sprites-generate/src/generate.ts:14 | a character beyond U+FFFF sorts before one in U+E000 to U+FFFF although its code point is larger |
| TextOrder.UnitsLessIrreflexive | packages/sprites-generate/src/generate.ts:14 | no code-unit sequence is before itself |
| TextOrder.UnitsLessAsymmetric | packages/sprites-generate/src/generate.ts:14 | two code-unit sequences are never each before the other |
| TextOrder.UnitsLessTotal | packages/sprites-generate/src/generate.ts:14 | of two different code-unit sequences, one is before the other |
| TextOrder.UnitsLessTransitive | packages/sprites-generate/src/generate.ts:14 | the code-unit order is transitive |
| TextOrder.LessIrreflexive | packages/sprites-generate/src/generate.ts:14 | no string is before itself in UTF-16 code-unit order |
| TextOrder.LessAsymmetric | packages/sprites-generate/src/generate.ts:14 | two strings are never each before the other |
| TextOrder.LessTotal | packages/sprites-generate/src/generate.ts:14 | of two different strings, one is before the other, because the encoding is injective |
| TextOrder.LessTransitive | packages/sprites-generate/src/generate.ts:14 | the string order is transitive |
| TextOrder.NotAfterTransitive | packages/sprites-generate/src/generate.ts:14 | `<=` on strings is transitive |
| TextOrder.Insert | packages/sprites-generate/fixtures.ts:48 | inserting keeps every key and adds one |
| TextOrder.InsertAscending | packages/sprites-generate/fixtures.ts:48 | inserting into an ascending list keeps it ascending |
| TextOrder.ConsAscending | packages/sprites-generate/fixtures.ts:48 | a key no later key precedes, put in front of ascending keys, keeps them ascending |
| TextOrder.Sort | packages/sprites-generate/fixtures.ts:48 | sorting keeps the length; order and contents are stated by `SortAscending` and `SortPermutes` |
| TextOrder.SortPermutes | packages/sprites-generate/fixtures.ts:48 | sorting keeps every key as often as it occurs |
| TextOrder.SortAscending | packages/sprites-generate/fixtures.ts:48 | the sorted list is ascending and has exactly the keys of the input |
| TextOrder.SortKeepsAscending | packages/sprites-generate/fixtures.ts:48 | an ascending list is its own sort |
| JsValues.Keys | packages/sprites-generate/fixtures.ts:48 | `Object.keys`: one name per property, name j being that of property j |
| JsValues.Find | packages/sprites-generate/fixtures.ts:51 | the position of a property the object has: it carries the name and no earlier property does |
| JsValues.Get | packages/sprites-generate/src/__tests__/metadata.test.js:170-178 | reading a property gives the value of the object's property of that name, or `undefined` when the value is no object or lacks it |
| JsValues.DigitOf | packages/sprites-generate/fixtures.ts:51 | a decimal digit denotes 0 to 9, and 0 exactly for `0` |
| JsValues.LeadingDigitPositive | packages/sprites-generate/fixtures.ts:51 | digits not starting with a zero denote a positive number |
| JsValues.IndexValueInjective | packages/sprites-generate/fixtures.ts:51 | different array-index names denote different numbers |
| JsValues.IndexSlot | packages/sprites-generate/fixtures.ts:51 | a new array index goes after exactly the indices below it |
| JsValues.Assign | packages/sprites-generate/fixtures.ts:51 | `o[k] = v`: an existing name keeps its place and the names stay as they were; a new name adds exactly one property |
| KeySorting.Normalized | packages/sprites-generate/fixtures.ts:28-56 | scalars, null and undefined come back as they are; arrays stay arrays of the same length; objects stay objects, rebuilt by assigning the sorted names in order; `ObjectProperties` states the result's property order |
| KeySorting.Pairs | packages/sprites-generate/fixtures.ts:48-53 | the assignments the loop makes: the j-th sorted name of the input, with that name's normalised value |
| KeySorting.SortObjectKeysRecursively | packages/sprites-generate/fixtures.ts:28-56 | the recursive normaliser returns exactly the normalised value |
| KeySorting.SortItems | packages/sprites-generate/fixtures.ts:44-46 | the array branch maps every element to its normalised value |
| KeySorting.SortEntries | packages/sprites-generate/fixtures.ts:48-53 | the object loop assigns the sorted names in order, each its normalised value, into an empty object, which gives exactly the normalised object |
| KeySorting.SortStrict | packages/sprites-generate/fixtures.ts:48 | sorting distinct names puts each strictly below the next |
| KeySorting.SortUnique | packages/sprites-generate/fixtures.ts:48 | sorting distinct names keeps them distinct |
| KeySorting.InsertUnique | packages/sprites-generate/fixtures.ts:48 | inserting a new name into distinct names keeps them distinct |
| KeySorting.BeforeIrreflexive | packages/sprites-generate/fixtures.ts:48-53 | no name precedes itself in enumeration order |
| KeySorting.BeforeAsymmetric | packages/sprites-generate/fixtures.ts:48-53 | two names never each precede the other |
| KeySorting.BeforeTransitive | packages/sprites-generate/fixtures.ts:48-53 | the enumeration order of a rebuilt object is transitive |
| KeySorting.IncreasingUnique | packages/sprites-generate/fixtures.ts:48-53 | two lists of the same names, both in enumeration order, are equal |
| KeySorting.IncreasingInOrder | packages/sprites-generate/fixtures.ts:48-53 | names in enumeration order form a property list JavaScript can hold |
| KeySorting.InsertIncreasing | packages/sprites-generate/fixtures.ts:51 | an entry put after the names it follows and before the name it precedes keeps the names in enumeration order |
| KeySorting.AssignFresh | packages/sprites-generate/fixtures.ts:51 | assigning a new name keeps the names in enumeration order, provided a non-index name comes after every non-index name already there |
| KeySorting.AssignedSorted | packages/sprites-generate/fixtures.ts:50-53 | assigning strictly ascending names one by one into `{}` keeps exactly those pairs, enumerated array indices first in numeric order, then the other names ascending |
| KeySorting.AssignedBelow | packages/sprites-generate/fixtures.ts:50-53 | a name above every name assigned so far is above every name of the object and is not one of them |
| KeySorting.ObjectProperties | packages/sprites-generate/fixtures.ts:48-53 | a normalised object has as many properties as the input, exactly the input's names, each with its normalised value, enumerated with array indices first in numeric order and then the other names in UTF-16 order |
| KeySorting.FromPairs | packages/sprites-generate/fixtures.ts:50-53 | properties drawn from the assignments carry names of the input with their normalised values |
| KeySorting.ToPairs | packages/sprites-generate/fixtures.ts:50-53 | properties that include every assignment include every name of the input |
| KeySorting.AtNormalized | packages/sprites-generate/fixtures.ts:48-53 | looking a key up in the normalised object gives the normalised value of that key in the input |
| KeySorting.NormalizedProper | packages/sprites-generate/fixtures.ts:28-56 | normalising a value JavaScript can hold gives a value it can hold, at every depth |
| KeySorting.Idempotent | packages/sprites-generate/fixtures.ts:28-56 | normalising twice gives what normalising once gives, for every value JavaScript can hold |
| MetadataCheck.ContentError | packages/sprites-generate/src/__tests__/metadata.test.js:182-204 | a content box is rejected exactly when it is not four numbers, has no positive extent, or leaves the image; the message is one of the three content messages |
| MetadataCheck.ValidateMetadata | packages/sprites-generate/src/__tests__/metadata.test.js:169-178 | a missing image gives "image is invalid"; then missing metadata gives "image has invalid metadata"; then a width that is not a positive number gives "image has invalid width"; then such a height gives "image has invalid height" |
| MetadataCheck.ZonesErrorMeaning | packages/sprites-generate/src/__tests__/metadata.test.js:206-233 | the zone scan finds nothing exactly when every zone is two numbers of positive length inside the image and no zone starts before the previous one ends |
| MetadataCheck.ValidateMeaning | packages/sprites-generate/src/__tests__/metadata.test.js:155-234 | the validator returns nothing exactly for usable metadata: a present image with positive width and height, and present metadata whose content box and stretch zones, when given, are well formed and inside the image |
| MetadataCheck.ValidateOrder | packages/sprites-generate/src/__tests__/metadata.test.js:180-233 | with a good size, a bad present content box is reported by its own message; failing that a bad `stretchX` is reported against the width; failing both a bad `stretchY` against the height |
| MetadataCheck.ZonesErrorMessages | packages/sprites-generate/src/__tests__/metadata.test.js:206-233 | every zone message names the axis and is one of the four zone problems |
| MetadataCheck.TouchingZones | packages/sprites-generate/src/__tests__/metadata.test.js:228-233 | zones that touch are accepted; the same zones in reverse order are reported as overlapping |
| SpriteImages.NormalizeOptions | packages/sprites-generate/src/generate.ts:164-186 | succeeds exactly when `imgs` is absent or a list and the pixel ratio is an integer; otherwise it fails with "imgs must be an array" or "pixelRatio must be a number", in that order; missing `imgs` becomes an empty list, and `extractMetadata` and `removeSizeMissingIcons` default to true; everything else is kept |
| SpriteImages.NormalizeIdempotent | packages/sprites-generate/src/generate.ts:164-186 | normalising normalised options changes nothing |
| SpriteImages.Compare | packages/sprites-generate/src/generate.ts:13-15 | zero exactly for equal height and id; negative exactly when the first is taller, or as tall with an id before the other's in UTF-16 code-unit order |
| SpriteImages.CompareAntisymmetric | packages/sprites-generate/src/generate.ts:13-15 | a before b exactly when b after a |
| SpriteImages.BeforeTotal | packages/sprites-generate/src/generate.ts:13-15 | any two images are ordered one way or the other |
| SpriteImages.BeforeTransitive | packages/sprites-generate/src/generate.ts:13-15 | the comparator's order is transitive |
| SpriteImages.InsertImage | packages/sprites-generate/src/generate.ts:159 | inserting keeps every image and adds one |
| SpriteImages.InsertOrdered | packages/sprites-generate/src/generate.ts:159 | inserting into an ordered list keeps it ordered |
| SpriteImages.SortImages | packages/sprites-generate/src/generate.ts:159 | sorting is a permutation |
| SpriteImages.SortOrdered | packages/sprites-generate/src/generate.ts:159 | the sorted list is in comparator order and a permutation of the input |
| SpriteImages.OrderedHeights | packages/sprites-generate/src/generate.ts:13-15 | in comparator order heights never increase, and ids of equal height ascend in UTF-16 order |
| SpriteImages.ContainsMeaning | packages/sprites-generate/src/generate.ts:120-123 | the substring test holds exactly when the marker occurs at some position |
| SpriteImages.CreateImage | packages/sprites-generate/src/generate.ts:94-146 | the result is "no image" exactly when the render was refused as too large with removal of oversized icons on, or refused for a missing size with removal of such icons on, or rendered with a zero side; a failure carries the render message or the extraction error; an image keeps the svg and id, takes the rendered size, and carries the extracted metadata exactly when the format and `extractMetadata` are set and the svg holds a marker |
| SpriteImages.CreateAll | packages/sprites-generate/src/generate.ts:153 | succeeds exactly when every icon's creation succeeds; it then holds each icon's result in input order |
| SpriteImages.Present | packages/sprites-generate/src/generate.ts:156 | keeps every created image as often as it occurs and drops the empty results |
| SpriteImages.CreateImagesMeaning | packages/sprites-generate/src/generate.ts:152-162 | `createImages` fails exactly when some creation fails; otherwise its images are in comparator order, occur exactly as often as they were created, have positive sides and come from some input with that id and svg |
| SpriteImages.CreatedFrom | packages/sprites-generate/src/generate.ts:109-146 | a created image has positive sides and the id and svg of some input |
| SpriteGroups.Group | packages/sprites-generate/src/generate.ts:263-278 | the loop builds exactly the signature-per-id table, where the last writer wins, and the ids-per-signature table in input order |
| SpriteGroups.IdsOfStep | packages/sprites-generate/src/generate.ts:273-277 | one more input appends its id to its signature's list, starting a missing list |
| SpriteGroups.SigOfKeys | packages/sprites-generate/src/generate.ts:271 | the signature table has exactly the input ids as keys |
| SpriteGroups.SigOfLast | packages/sprites-generate/src/generate.ts:271 | an id maps to the svg of its last occurrence |
| SpriteGroups.SigOfRange | packages/sprites-generate/src/generate.ts:271 | every signature in the table is the svg of some input |
| SpriteGroups.IdsWithMeaning | packages/sprites-generate/src/generate.ts:273-277 | an id is listed under a signature exactly when some input has that id and svg |
| SpriteGroups.IdsWithHead | packages/sprites-generate/src/generate.ts:273-277 | the list of a signature starts with the id of its first input |
| SpriteGroups.FirstWith | packages/sprites-generate/src/generate.ts:281-284 | finds the first input carrying a signature |
| SpriteGroups.KnownAll | packages/sprites-generate/src/generate.ts:281-284 | every input's id is in the signature table, and its signature is in the ids table |
| SpriteGroups.Keep | packages/sprites-generate/src/generate.ts:281-284 | the filter keeps only inputs |
| SpriteGroups.KeepFirsts | packages/sprites-generate/src/generate.ts:281-284 | with distinct ids the filter keeps exactly the first input of every signature, in input order |
| SpriteGroups.LeadsFirst | packages/sprites-generate/src/generate.ts:282-283 | with distinct ids an input leads its signature's list exactly when no earlier input has its svg |
| SpriteGroups.KeepPrefix | packages/sprites-generate/src/generate.ts:281-284 | given tables in which every input is known and leads its signature's list exactly when no earlier input has its svg, on every prefix the filter keeps exactly the first input of each signature |
| SpriteGroups.FirstsSvgs | packages/sprites-generate/src/generate.ts:280-284 | the representatives cover every signature, one each |
| SpriteGroups.FirstsDistinct | packages/sprites-generate/src/generate.ts:280-284 | no two representatives share a signature |
| SpriteGroups.FirstsFrom | packages/sprites-generate/src/generate.ts:280-284 | every representative is an input |
| SpriteLayout.PackImages | packages/sprites-generate/src/generate.ts:204-216 | every image is packed at a non-negative position; the first image of each id lies inside the returned sheet and overlaps no other first image; a later image with the same id sits where the first one does |
| SpriteLayout.PackRequests | packages/sprites-generate/src/generate.ts:204-209 | a fresh auto-resizing packer answers one request per image, filed under the image's id, each placed, with its position written into the request |
| SpriteLayout.NewRequests | packages/sprites-generate/src/generate.ts:204-209 | a fresh array with one request per image, each of a positive size |
| SpriteLayout.WrittenPositions | packages/sprites-generate/src/generate.ts:206-209 | a record written back with a placement carries that placement's position |
| SpriteLayout.PackedItems | packages/sprites-generate/src/generate.ts:204-216 | the items read back from the packer's answers form a packing on the packer's canvas: first images inside it and pairwise apart |
| SpriteLayout.ReadPositions | packages/sprites-generate/src/generate.ts:207-209 | reads back the position written into each request |
| SpriteLayout.BuildData | packages/sprites-generate/src/generate.ts:220-243 | the loop builds exactly the data layout of the items |
| SpriteLayout.DataOfKeys | packages/sprites-generate/src/generate.ts:221-222 | the data layout has exactly the item ids as keys |
| SpriteLayout.DataOfLast | packages/sprites-generate/src/generate.ts:222-241 | an id's entry describes its last item: size, position, pixel ratio and metadata |
| SpriteLayout.DataDescribes | packages/sprites-generate/src/generate.ts:219-243 | the data layout has exactly the item ids as keys, and each id's entry describes its last item: size, position, pixel ratio and metadata |
| SpriteLayout.BuildSharedData | packages/sprites-generate/src/generate.ts:299-327 | the nested loops build exactly the shared data layout |
| SpriteLayout.SpreadInto | packages/sprites-generate/src/generate.ts:304-325 | the inner loop writes the same entry under every id of the group, over what was there |
| SpriteLayout.SharedDataMeaning | packages/sprites-generate/src/generate.ts:299-327 | an id has an entry exactly when it is in some packed item's group, and the entry is that of such an item |
| SpriteLayout.SharedDataTogether | packages/sprites-generate/src/generate.ts:304-325 | two ids that always share a group have an entry together, and it is the same entry |
| SpriteLayout.KnownMade | packages/sprites-generate/src/generate.ts:300-302 | every packed item's id is in both tables |
| SpriteLayout.GroupsBySignature | packages/sprites-generate/src/generate.ts:301-302 | with distinct ids an item's group is the list of ids with its svg: an input is in the group exactly when it has the item's svg |
| SpriteLayout.SharedKeysFromInputs | packages/sprites-generate/src/generate.ts:299-327 | with distinct ids every key of the shared layout is an input id |
| SpriteLayout.SharedKeys | packages/sprites-generate/src/generate.ts:299-327 | with distinct ids an input has an entry exactly when an image with its svg was packed |
| SpriteLayout.SharedEntries | packages/sprites-generate/src/generate.ts:305-324 | with distinct ids an input's entry describes a packed image with its svg: size, position, pixel ratio and metadata |
| SpriteLayout.SharedTogether | packages/sprites-generate/src/generate.ts:249-256 | with distinct ids, inputs with the same svg get the same entry |
| SpriteLayout.GenerateLayout | packages/sprites-generate/src/generate.ts:193-247 | a normalisation error is passed on, then an image-creation error; a format of exactly false gives a sheet whose items are the created images, packed inside the sheet and apart; exactly true gives a data layout describing such a packing, positions included; any other format fails with "Invalid format" |
| SpriteLayout.Representatives | packages/sprites-generate/src/generate.ts:268-284 | with distinct ids the filter keeps the first input of each signature |
| SpriteLayout.GenerateLayoutUnique | packages/sprites-generate/src/generate.ts:257-335 | a normalisation error is passed on, then a creation error for a representative; a truthy format gives a data layout over a packing of the representatives that, for distinct ids, gives every input of a packed signature that image's entry, position included; otherwise the sheet of the packed representatives, inside it and apart |
| SpriteLayout.KeptMadeFrom | packages/sprites-generate/src/generate.ts:281-286 | images created from the kept inputs come from the original inputs |
| SpriteLayout.SharedLayout | packages/sprites-generate/src/generate.ts:299-327 | with distinct ids the shared data layout gives an entry exactly to the inputs whose svg was packed, each describing such an image, and the same entry to inputs with the same svg |
| SpriteLayout.LayOutUnique | packages/sprites-generate/src/generate.ts:293-334 | packs the representatives; a truthy format gives the shared data layout of a packing, for distinct ids one that shares entries by signature, positions included; otherwise the sheet of that packing |

## Left out

- The shelf packer's own source is not part of this model. Its behaviour comes from its tests, `packages/shelf-pack/src/__tests__/index.test.ts`, and from the description of the package. The placement order, free bins first, is the one the tests pin down (lines 321-348 and 377-399).
- Rendering an SVG with mapnik and extracting its metadata are foreign calls. They are the `render` and `extract` parameters. The `max_size` and `scale` options they receive, and the regular expressions that classify mapnik's messages, become the refusal kinds `TooLarge`, `SizeMissing` and `OtherFault`.
- Promises and asynchrony are left out. `Promise.all` rejects with the first rejection to arrive; the model reports the first failure in input order.
- The base64 signature of an SVG buffer is modelled as the SVG text itself. Both are injective, so grouping is the same.
- The rendered `buffer` field of an image is left out, because nothing in the layout reads it.
- JavaScript's coercion of numeric and string ids to the same object key is left out. Packer ids are `Num` or `Name`; sprite ids are strings.
- NaN and floating-point pixel ratios are left out. `Number.isInteger` is modelled on reals.
- The key order of the data layout object is left out: it is a map.
- `...metadata` in `createImage` could overwrite `width` or `height`. It is left out: metadata carries only placeholder, content and stretch fields.
- `validateMetadata` is modelled on the test file's expectations. Its source file is not part of this model. The checks run in the order the tests imply: image, metadata, width, height, content, stretchX, stretchY.
- ShelfPacking.ShelfPack.Shrink: shrinks to the shelves' extent (the widest cursor and the bottom shelf), not to the extent of live bins, so that vacated slots stay inside the canvas.
- ShelfPacking.ShelfPack.Resize: requires the new size to hold every shelf and cursor; below that the layout would be undefined.
- ShelfPacking.ShelfPack.Ref: requires a bin that is live under its own id.
- ShelfPacking.ShelfPack.Unref: requires a bin that is live under its own id or is on the free list.
- ShelfPacking.ShelfPack.Pack: states that an unplaced request is one without automatic resizing whose id was not live, not that the canvas had no room for it at that moment; that is stated request by request by `Answer`, which the batch loop calls.
- SpriteImages.SortImages: an insertion sort stands in for the engine's stable `toSorted`. The two can differ only on images of equal height and equal id, which needs a repeated id. The model does not state which of those comes first.
- TextOrder.Sort: an insertion sort stands in for the engine's default array sort. Both order strings by UTF-16 code units and differ at most in the order of equal strings, so the sorted list is the same.
- SpriteLayout.PackImages: states that the items fit on the returned sheet, not that the sheet is the smallest one: the shrink to the shelves' extent is stated by `Pack`.
- SpriteLayout.GenerateLayout: the data entries keep the metadata fields that are present: array-valued metadata is always truthy in JavaScript, so a present field is always copied.
- SpriteLayout.GenerateLayoutUnique: shared entries are stated only for inputs with distinct ids. With repeated ids, the last writer of the signature table decides the group, and the model computes this but states nothing about it.
- SpriteLayout.LayOutUnique: same restriction as GenerateLayoutUnique.
- KeySorting.Normalized: assigning the name `__proto__` to a plain object sets its prototype instead of adding a property; the model treats `__proto__` like any other name.
- KeySorting.Idempotent: requires `Proper`, which every object JavaScript can build satisfies (unique names, array indices first and ascending); a property list outside it has no JavaScript counterpart.
- KeySorting.ObjectProperties: requires unique names, which every JavaScript object has.
