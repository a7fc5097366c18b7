# Virtual-tour site: a Dafny model of its logic

The site presents travel destinations, each with a 360° virtual tour made of
panorama scenes linked by hotspots, visitor reviews, and an admin area. The
admins upload panoramas, place hotspots and manage users through two
server-side edge functions. This project models the pure logic buried in
those components as immutable datatypes and total functions, and proves the
properties the code promises:

- **Tour viewer** (`PanoramaViewer`): the starting scene and history, hotspot
  clicks, "Back", and "jump to scene".
- **Hotspot editor** (`HotspotEditor`): the per-scene visibility filter, save
  (upsert by id plus the one-shot reciprocal "return" hotspot), and delete.
- **Panorama gallery** (`Gallery`): adding an uploaded image (with its
  extension stripped), setting the default, deleting with promotion of a new
  default, renaming, and the display order.
- **Destination page** (`DestinationPage`): the review average, the choice of
  tour scenes (the stored list, or one synthesised from the main image), the
  hero image and the review chip.
- **New destination form** (`NewDestination`): `slugify`, the title-to-id
  binding, the image attachment, and the checks run before the insert.
- **Review form and list** (`ReviewForm`, `ReviewsList`, `RatingDisplay`):
  the submit checks in order, avatar initials, the star rows, the
  full/half/empty star rendering and the count label.
- **Image upload** (`UploadImage`): the storage path built from the time and
  the extension, and the upload outcome.
- **Admin edge functions** (`AdminAuth`, `ResetPassword`, `DeleteUser`): the
  shared guard chain (preflight, 401, 403) and each function's body checks
  and actions. An admin can never act on their own account.

Shared pieces are kept in their own modules:

- `Common`: `Option`, and JavaScript truthiness of optional strings.
- `Seqs`: find and filter over sequences.
- `JsString`: JavaScript's `trim`, ASCII case mapping, `split`/`join`,
  `replace` of the first match, and decimal rendering of numbers.
- `Tour`: the `Panorama` and `Hotspot` records.

Network calls, the clock and storage answers are parameters. For example,
`now: nat` stands for `Date.now()`, and an `Option<string>` error stands for
what a service returned.

One place where the viewer disagrees with itself: every move appends the
scene being left (src/components/PanoramaViewer.tsx:32, :38 and :56), which
is what the comment "Add current to history before navigating" at :31 says.
Back, however, pops the last entry as "Remove current" (:48) and shows the
new last entry, which assumes the last entry is the scene on show. After
a→b the history is `["a","a"]`. The model follows the code; see
"## Findings".

## Model

| member | source | states |
|---|---|---|
| Common.OrElse | src/pages/DestinationSingle.tsx:119 | JavaScript's logical or on optional strings: a present (non-empty) first operand wins, otherwise the second is the result |
| Seqs.FindIndex | src/components/HotspotEditor.tsx:141 | `findIndex`: the result satisfies the predicate and nothing before it does; none means no element does |
| Seqs.Find | src/components/PanoramaViewer.tsx:17 | `find`: none exactly when no element satisfies the predicate; otherwise the element at the first position that does |
| Seqs.Filter | src/components/HotspotEditor.tsx:194 | `filter`: kept elements satisfy the predicate and come from the list; every satisfying element is kept |
| Seqs.FilterAppend | src/components/HotspotEditor.tsx:194 | filtering a concatenation filters each part, so relative order is kept |
| Seqs.FilterKeepsAll | src/components/PanoramaGalleryManager.tsx:61 | filtering a list whose elements all pass returns it unchanged |
| Seqs.FilterDropsAll | src/components/PanoramaGalleryManager.tsx:61 | filtering a list whose elements all fail gives the empty list |
| Seqs.Count | src/components/PanoramaGalleryManager.tsx:63 | the count is zero exactly when no element satisfies the predicate (`!some`) |
| JsString.LeadingWs | src/pages/admin/NewDestination.tsx:17 | the length of the leading whitespace run: all whitespace, followed by a non-whitespace char or the end |
| JsString.TrailingWs | src/pages/admin/NewDestination.tsx:17 | the length of the trailing whitespace run, with the symmetric guarantee |
| JsString.Trim | src/components/ReviewForm.tsx:42 | `trim`: a contiguous slice starting after the leading whitespace, with only whitespace after it and none at either end; empty exactly when the text is all whitespace |
| JsString.TrimNoWs | src/pages/admin/NewDestination.tsx:17 | text without whitespace is its own trim |
| JsString.Blank | src/components/ReviewForm.tsx:42 | `!x.trim()`: the text is empty or all whitespace |
| JsString.LowerChar | src/pages/admin/NewDestination.tsx:16 | ASCII `toLowerCase` of one char: A–Z map to a–z by a shift of 32, everything else is kept |
| JsString.UpperChar | src/components/ReviewsList.tsx:44 | ASCII `toUpperCase` of one char: a–z map to A–Z, everything else is kept |
| JsString.Lower | src/pages/admin/NewDestination.tsx:16 | `toLowerCase`: same length, each char mapped by `LowerChar` |
| JsString.Upper | src/components/ReviewsList.tsx:44 | `toUpperCase`: same length, each char mapped by `UpperChar` |
| JsString.Split | src/components/ReviewsList.tsx:41 | `split(d)`: at least one piece, no piece contains `d`, a text without `d` is one piece, a text with `d` gives two or more |
| JsString.JoinSplit | src/components/ReviewsList.tsx:41 | joining the pieces of a split with the same separator gives the text back |
| JsString.LastPiece | src/lib/uploadImage.ts:5 | `split(d).pop()`: contains no `d`, and is the whole text when there is no `d` |
| JsString.LastPieceAfter | src/lib/uploadImage.ts:5 | in `a + d + b` with no `d` in `b`, the last piece is `b` |
| JsString.LastPieceSuffix | src/lib/uploadImage.ts:5 | a text containing `d` is some prefix, `d`, then its last piece |
| JsString.IndexOfFrom | supabase/functions/reset-password/index.ts:26 | the first occurrence at or after `from`: none before it, and none at all when the result is none |
| JsString.ReplaceFirst | supabase/functions/reset-password/index.ts:26 | `replace(pat, rep)` with a string pattern: a text without `pat` is unchanged; otherwise exactly the first occurrence is replaced by `rep` |
| JsString.ReplaceFirstPrefix | supabase/functions/reset-password/index.ts:26 | removing `pat` from `pat + t` gives `t` |
| JsString.DigitChar | src/lib/uploadImage.ts:6 | the digit char whose code is `'0'` plus the value |
| JsString.Decimal | src/lib/uploadImage.ts:6 | the decimal rendering of a timestamp is non-empty and all digits |
| JsString.DecimalRoundTrip | src/lib/uploadImage.ts:6 | parsing the rendering gives the number back, so different times render differently |
| JsString.DecimalPlain | src/lib/uploadImage.ts:6 | a rendered timestamp has no `.`, `/` or `-` |
| Tour.PanoramaWithId | src/components/PanoramaViewer.tsx:22 | `panoramas.find(p => p.id === id)`: the first listed panorama with that id; none exactly when no panorama has it |
| Tour.PanoramaWithUrl | src/components/PanoramaViewer.tsx:36 | `panoramas.find(p => p.url === url)`: the first listed panorama with that url; none exactly when none has it |
| Tour.DefaultCount | src/components/PanoramaGalleryManager.tsx:63 | the number of default images, zero exactly when none is default |
| PanoramaViewer.DefaultIndex | src/components/PanoramaViewer.tsx:17 | the first panorama marked default, else index 0 (only when none is default); none for an empty list |
| PanoramaViewer.Init | src/components/PanoramaViewer.tsx:17-19 | the start scene is the default panorama's id; the history is that id alone, or empty when there is no panorama or the id is empty |
| PanoramaViewer.Resolve | src/components/PanoramaViewer.tsx:28-41 | a click target is only ever a known panorama of a navigation hotspot; a known `targetPanoramaId` wins over the url |
| PanoramaViewer.Enter | src/components/PanoramaViewer.tsx:32-33 | the move as written: the new scene is shown and the history grows by one entry, the scene being left |
| PanoramaViewer.Click | src/components/PanoramaViewer.tsx:27-43 | `handleHotspotClick`: info hotspots and unresolvable navigation hotspots change nothing; a known target id moves there; otherwise the first panorama with the target url, if any; any change appends exactly one entry and lands on a known panorama |
| PanoramaViewer.Back | src/components/PanoramaViewer.tsx:45-53 | `handleBack`: a no-op with at most one entry; otherwise the last entry is dropped and the new last entry is shown |
| PanoramaViewer.JumpTo | src/components/PanoramaViewer.tsx:55-59 | `handleJumpTo`: always moves to the chosen id and appends the current one, even when they are equal |
| PanoramaViewer.Render | src/components/PanoramaViewer.tsx:22-25 | a placeholder exactly when the current id names no panorama; otherwise the first panorama with that id, every hotspot with a position, and the back button exactly with more than one history entry |
| PanoramaViewer.RenderIgnoresScene | src/components/PanoramaViewer.tsx:23-25 | the hotspots handed on do not depend on the scene: there is no per-scene filtering |
| PanoramaViewer.InitConsistent | src/components/PanoramaViewer.tsx:17-19 | the viewer starts with the last history entry equal to the scene shown |
| PanoramaViewer.EnterBreaksConsistency | src/components/PanoramaViewer.tsx:32 | as written, a move to another scene leaves a last history entry that is not the scene shown |
| PanoramaViewer.BackAfterOneEnter | src/components/PanoramaViewer.tsx:32-52 | as written, one move followed by Back still restores the state |
| PanoramaViewer.ClickToKnown | src/components/PanoramaViewer.tsx:29-33 | a click on a navigation hotspot whose target id names a known scene moves there and appends the current id, whatever the state |
| PanoramaViewer.HistoryAfterOneMove | src/components/PanoramaViewer.tsx:29-33 | as written, after a→b the history is [a, a] |
| PanoramaViewer.BackSkipsScene | src/components/PanoramaViewer.tsx:32-52 | as written, after a→b→c one Back shows a and skips b |
| PanoramaViewer.EnterIntended | src/components/PanoramaViewer.tsx:32-33 | the corrected move: it appends the scene entered, so the last entry is the scene shown |
| PanoramaViewer.BackUndoesEnterIntended | src/components/PanoramaViewer.tsx:45-52 | with the corrected move, Back undoes any move from a consistent state |
| PanoramaViewer.BackKeepsConsistency | src/components/PanoramaViewer.tsx:45-52 | Back keeps the last entry equal to the scene shown |
| PanoramaViewer.BackReturnsToPreviousScene | src/components/PanoramaViewer.tsx:45-52 | with the corrected move, a→b→c then Back shows b |
| HotspotEditor.SceneIdOf | src/components/HotspotEditor.tsx:48-49 | the scene being edited: none exactly when no panorama has the image url |
| HotspotEditor.ShownOn | src/components/HotspotEditor.tsx:51-55 | a hotspot with a truthy `panoramaId` belongs only to that scene; one without is shown on every scene |
| HotspotEditor.Visible | src/components/HotspotEditor.tsx:51-55 | the hotspots the filter keeps come from the list; every ungrouped hotspot is kept; a grouped one only when it belongs to the first panorama with the image url |
| HotspotEditor.VisibleIff | src/components/HotspotEditor.tsx:48-55 | both directions: a hotspot is kept iff it is ungrouped or grouped on the scene; with no matching scene only ungrouped ones are kept |
| HotspotEditor.Upsert | src/components/HotspotEditor.tsx:141-152 | the first hotspot with the edited id is replaced in place with everything else unchanged; a new id is appended at the end |
| HotspotEditor.UpsertFirstWithId | src/components/HotspotEditor.tsx:141-152 | after the upsert, the edited hotspot is the first with its id |
| HotspotEditor.WantsReturn | src/components/HotspotEditor.tsx:155-159 | a reciprocal is considered only for a navigation hotspot whose target and source scene ids are both truthy |
| HotspotEditor.HasReturn | src/components/HotspotEditor.tsx:164-166 | some hotspot already sits on the target scene and points back to the source scene (`some`) |
| HotspotEditor.ReturnLabel | src/components/HotspotEditor.tsx:170 | the source scene's name when the first panorama with that id has a non-empty one, otherwise "Previous Area" |
| HotspotEditor.ReturnHotspot | src/components/HotspotEditor.tsx:172-180 | the reciprocal has id "hotspot-" + the time + "-return", sits on the target, points back to the source, is a navigation hotspot at yaw 0 and pitch -10, and is labelled "Return to " plus the source's label |
| HotspotEditor.Save | src/components/HotspotEditor.tsx:141-187 | the upserted list is kept as a prefix; one hotspot is added exactly when the edited one is a navigation hotspot with source and target and no hotspot on the target points back, and it is the reciprocal |
| HotspotEditor.SaveKeepsOthers | src/components/HotspotEditor.tsx:145-182 | a save grows the list by at most two and never moves or removes a hotspot with another id |
| HotspotEditor.SelfLoopAddsNoReturn | src/components/HotspotEditor.tsx:164-168 | a hotspot from a scene to itself never spawns a reciprocal, because the saved hotspot counts as its own return |
| HotspotEditor.UpsertAgain | src/components/HotspotEditor.tsx:141-148 | upserting a hotspot already first with its id changes nothing |
| HotspotEditor.SaveIdempotent | src/components/HotspotEditor.tsx:141-168 | saving the same hotspot again, at any later time, returns the same list |
| HotspotEditor.SaveScenario | src/components/HotspotEditor.tsx:141-182 | saving A→B adds one return hotspot on B labelled with A's name; saving again adds nothing |
| HotspotEditor.Delete | src/components/HotspotEditor.tsx:192-194 | a hotspot is kept exactly when it was there and has another id |
| HotspotEditor.DeleteKeepsOrder | src/components/HotspotEditor.tsx:194 | deleting acts on each part of a list separately, so the kept hotspots stay in order |
| HotspotEditor.DeleteAbsent | src/components/HotspotEditor.tsx:194 | deleting an id nobody has changes nothing |
| Gallery.IsExtension | src/components/PanoramaGalleryManager.tsx:35 | what `[^/.]+$` matches after the final `.`: a non-empty tail with no `.` and no `/` |
| Gallery.LastDot | src/components/PanoramaGalleryManager.tsx:35 | the position of a `.` with no `.` after it; none exactly when there is no `.` |
| Gallery.StripExtension | src/components/PanoramaGalleryManager.tsx:35 | `replace(/\.[^/.]+$/, "")`: the result is a prefix, and it is shorter exactly when a `.` follows it and the rest is a non-empty tail without `.` or `/`; a name with such a `.` at position i strips to its first i chars |
| Gallery.LastDotOf | src/components/PanoramaGalleryManager.tsx:35 | in `a + "." + t` with no `.` in `t`, the last dot is the one after `a` |
| Gallery.StripExtensionOf | src/components/PanoramaGalleryManager.tsx:35 | stripping `base.ext` gives `base` for every valid extension |
| Gallery.StripExtensionKeeps | src/components/PanoramaGalleryManager.tsx:35 | a name ending in `.` or with `/` after its last `.` is kept whole |
| Gallery.StripExtensionTwoDots | src/components/PanoramaGalleryManager.tsx:35 | "a.tar.gz" becomes "a.tar" |
| Gallery.StripExtensionHidden | src/components/PanoramaGalleryManager.tsx:35 | ".jpg" becomes "" |
| Gallery.StripExtensionTrailingDot | src/components/PanoramaGalleryManager.tsx:35 | "pano." is kept |
| Gallery.AddUploaded | src/components/PanoramaGalleryManager.tsx:33-40 | the new image is appended after the old ones with id "pano-" plus the time, the stripped name, order equal to the old length, and default exactly when the list was empty |
| Gallery.DefaultCountAppend | src/components/PanoramaGalleryManager.tsx:40 | appending an image adds one default exactly when it is one |
| Gallery.AddKeepsOneDefault | src/components/PanoramaGalleryManager.tsx:37-40 | from an empty list or one with a single default, adding keeps exactly one default |
| Gallery.SetDefault | src/components/PanoramaGalleryManager.tsx:49-56 | an image is default exactly when it has the id; nothing else about any image changes and the order is kept |
| Gallery.SetDefaultCount | src/components/PanoramaGalleryManager.tsx:49-56 | after set-default the number of defaults is the number of images with that id |
| Gallery.CountIdUnique | src/components/PanoramaGalleryManager.tsx:49-56 | with unique ids, a present id is carried by exactly one image |
| Gallery.SetDefaultExactlyOne | src/components/PanoramaGalleryManager.tsx:49-56 | with unique ids and the id present, exactly one default results, and it is that image |
| Gallery.Delete | src/components/PanoramaGalleryManager.tsx:58-67 | the result has the length of the filtered list and agrees with it from position 1 on; its head differs at most in `isDefault`; a filtered list that has a default is returned as it is; one with none gets exactly one default, its first image by position; no image with the id remains |
| Gallery.DefaultCountFirst | src/components/PanoramaGalleryManager.tsx:63 | the default count splits into the first image and the rest |
| Gallery.DeleteLeavesOneDefault | src/components/PanoramaGalleryManager.tsx:61-65 | with at most one default and an image left, exactly one default remains |
| Gallery.FilterDefaultCount | src/components/PanoramaGalleryManager.tsx:61 | removing images never adds defaults |
| Gallery.DeleteNonDefault | src/components/PanoramaGalleryManager.tsx:61-65 | deleting an image other than the default only filters; no promotion happens |
| Gallery.Rename | src/components/PanoramaGalleryManager.tsx:69-73 | only the name of images with the id changes, to the new name |
| Gallery.RenameLastWins | src/components/PanoramaGalleryManager.tsx:69-73 | renaming twice equals renaming once to the last name |
| Gallery.SortedHeadLeast | src/components/PanoramaGalleryManager.tsx:99-100 | in the sorted list the first image has the least order |
| Gallery.Insert | src/components/PanoramaGalleryManager.tsx:99-100 | inserting into a sorted list keeps it sorted and adds exactly that image (a permutation step) |
| Gallery.DisplayOrder | src/components/PanoramaGalleryManager.tsx:99-100 | images are shown sorted by ascending `order`, as a permutation of the list |
| Gallery.InsertStable | src/components/PanoramaGalleryManager.tsx:99-100 | an insertion puts the image before the others of equal order |
| Gallery.DisplayOrderStable | src/components/PanoramaGalleryManager.tsx:99-100 | the sort is stable: images of equal order keep their list order |
| RatingDisplay.Nonneg | src/components/RatingDisplay.tsx:34-57 | a loop bound below zero runs no iterations |
| RatingDisplay.Ceil | src/components/RatingDisplay.tsx:56 | `Math.ceil`: the least integer at or above the rating; it equals the floor exactly for integral ratings |
| RatingDisplay.JsRemOne | src/components/RatingDisplay.tsx:31 | `rating % 1`: the fraction in [0, 1) for non-negative ratings and never positive for negative ones |
| RatingDisplay.Repeat | src/components/RatingDisplay.tsx:34-41 | a loop of `n` pushes: `max(n, 0)` copies of one star |
| RatingDisplay.HasHalf | src/components/RatingDisplay.tsx:31-44 | a half star is drawn exactly when `rating % 1 >= 0.5` and fewer than five full stars are drawn |
| RatingDisplay.Stars | src/components/RatingDisplay.tsx:28-64 | `renderStars`: star k is full iff k+1 ≤ rating; a half star shows iff 0 ≤ rating < 5 with fraction ≥ 0.5; the empty stars close the row, 5 − ceil(rating) of them and none when that is not positive |
| RatingDisplay.StarsForWholeRating | src/components/RatingDisplay.tsx:30-61 | an integral rating 0..5 gives that many full stars and the rest empty, five symbols in all |
| RatingDisplay.StarCount | src/components/RatingDisplay.tsx:30-61 | a rating in 0..5 renders 4 symbols when its fraction is in (0, 0.5) and 5 otherwise |
| RatingDisplay.FourPointThree | src/components/RatingDisplay.tsx:30-61 | 4.3 renders four full stars and nothing else |
| RatingDisplay.ThreePointFive | src/components/RatingDisplay.tsx:30-61 | 3.5 renders three full, one half and one empty |
| RatingDisplay.ReviewNoun | src/components/RatingDisplay.tsx:72-76 | the label is "review" exactly when the count is 1, else "reviews" |
| RatingDisplay.ReviewNounPlural | src/components/RatingDisplay.tsx:72-76 | every count other than one takes the singular plus "s" |
| ReviewsList.Heads | src/components/ReviewsList.tsx:42-43 | each char is the first char of a non-empty piece; no more chars than pieces, as many exactly when no piece is empty, and then the k-th char is the k-th piece's first |
| ReviewsList.Take | src/components/ReviewsList.tsx:45 | `slice(0, n)`: a prefix of length n, or the whole text when shorter |
| ReviewsList.Initials | src/components/ReviewsList.tsx:39-46 | `getInitials`: at most two chars, each the upper-cased first char of a successive non-empty word |
| ReviewsList.WordStarts | src/components/ReviewsList.tsx:40-43 | the word starts read directly from the text: never a space, never longer than the text |
| ReviewsList.HeadsAreWordStarts | src/components/ReviewsList.tsx:40-43 | the heads of the split pieces are exactly the word starts, so empty pieces contribute nothing |
| ReviewsList.InitialsFromWordStarts | src/components/ReviewsList.tsx:39-46 | the initials are the first two word starts, upper-cased |
| ReviewsList.EmptyNameInitials | src/components/ReviewsList.tsx:39-46 | the empty name has no initials |
| ReviewsList.SpacedWordStarts | src/components/ReviewsList.tsx:40-43 | " a  b" has word starts "ab" |
| ReviewsList.SpacedNameInitials | src/components/ReviewsList.tsx:39-46 | leading and doubled spaces add nothing: " a  b" gives "AB" |
| ReviewsList.StarFills | src/components/ReviewsList.tsx:83-91 | five stars, star i filled iff i ≤ rating |
| ReviewsList.StarFillsPrefix | src/components/ReviewsList.tsx:83-91 | the filled stars come first, as many as the rating clamped to 0..5 |
| ReviewsList.CardOf | src/components/ReviewsList.tsx:80-116 | a card shows the initials and star row; the heading is the title exactly when it is truthy, and the visit line is the visit date exactly when it is truthy |
| ReviewsList.Render | src/components/ReviewsList.tsx:31-124 | the placeholder exactly for an empty list; otherwise one card per review in order, with scroll buttons exactly for more than one |
| DestinationPage.RatingSum | src/pages/DestinationSingle.tsx:83 | the `reduce` adding up the ratings from 0 |
| DestinationPage.LoadReviews | src/pages/DestinationSingle.tsx:80-85 | a non-empty fetch replaces the reviews and sets an average whose product with the count is the rating sum; an empty or failed fetch keeps the previous state |
| DestinationPage.RatingSumBounds | src/pages/DestinationSingle.tsx:83 | a sum of ratings in [lo, hi] lies in [lo·n, hi·n] |
| DestinationPage.QuotientBounds | src/pages/DestinationSingle.tsx:83 | dividing such a sum by the positive count gives a value in [lo, hi] |
| DestinationPage.ProductAsReal | src/pages/DestinationSingle.tsx:83 | the integer product, read as a real, is the real product |
| DestinationPage.AverageWithinBounds | src/pages/DestinationSingle.tsx:80-85 | the average of ratings in [lo, hi] lies in [lo, hi] |
| DestinationPage.LoadKeepsEarlierReviews | src/pages/DestinationSingle.tsx:80-85 | a later empty fetch does not clear reviews already shown |
| DestinationPage.FallbackScene | src/pages/DestinationSingle.tsx:208-214 | the synthesised panorama has id "default", the title as name, the main image as url, is default and has order 0 |
| DestinationPage.TourSourceOf | src/pages/DestinationSingle.tsx:201-221 | a non-empty stored list goes to the viewer unchanged; otherwise a tour exists exactly when the main image is set and is the one fallback scene; hotspots default to the empty list |
| DestinationPage.TourOpensOnScene | src/pages/DestinationSingle.tsx:201-216 | whenever a tour is built, the viewer opens on a scene and not on its placeholder |
| DestinationPage.FallbackTourStart | src/pages/DestinationSingle.tsx:206-216 | with no stored panoramas (absent or an empty list) and a main image, the fallback tour starts on "default" with that id alone in its history |
| DestinationPage.HeroImage | src/pages/DestinationSingle.tsx:119 | the thumbnail when it is non-empty, else the main image |
| DestinationPage.HeroShownIff | src/pages/DestinationSingle.tsx:119 | the hero has a background exactly when the thumbnail or the main image is set |
| DestinationPage.ReviewChip | src/pages/DestinationSingle.tsx:145-149 | the chip shows exactly when there are reviews, with their count and average, and the singular noun exactly for one review |
| DestinationPage.ChipAfterLoad | src/pages/DestinationSingle.tsx:145-149 | after a non-empty load the chip shows the number of loaded reviews and their mean rating |
| DestinationPage.ChipAgreesWithCarousel | src/pages/DestinationSingle.tsx:145-149 | the chip is hidden exactly when the review carousel shows its placeholder |
| UploadImage.Extension | src/lib/uploadImage.ts:5 | the extension contains no `.`, and is the whole name when the name has none |
| UploadImage.ExtensionFollowsLastDot | src/lib/uploadImage.ts:5 | a name with a dot is a stem, a dot and the extension, which is what follows the last dot |
| UploadImage.TrailingDotExtension | src/lib/uploadImage.ts:5 | a name ending in `.` has an empty extension |
| UploadImage.StoragePath | src/lib/uploadImage.ts:6-7 | the path starts with "destinations/", then the time in decimal, then a `.` |
| UploadImage.StoragePathKeepsExtension | src/lib/uploadImage.ts:5-7 | the extension of the stored path is the file's extension |
| UploadImage.StoragePathsDiffer | src/lib/uploadImage.ts:6-7 | uploads at different times get different paths |
| UploadImage.RequestFor | src/lib/uploadImage.ts:9-14 | the upload goes to the "destinations" bucket at that path with a one-hour cache and never overwrites |
| UploadImage.Upload | src/lib/uploadImage.ts:9-23 | a storage error is thrown exactly when there is one, before any public url; otherwise the public url of that path |
| NewDestination.Kept | src/pages/admin/NewDestination.tsx:18 | a char survives `[^a-z0-9\s-]` exactly when it is a–z, 0–9, `-` or whitespace |
| NewDestination.DeleteOthers | src/pages/admin/NewDestination.tsx:18 | only a–z, 0–9, whitespace and `-` are kept, and every such char is kept |
| NewDestination.DashRuns | src/pages/admin/NewDestination.tsx:19 | replacing whitespace runs never lengthens the text |
| NewDestination.DashRunsNoWs | src/pages/admin/NewDestination.tsx:19 | no whitespace is left after the runs are replaced |
| NewDestination.DashRunsWithoutWs | src/pages/admin/NewDestination.tsx:19 | text without whitespace is unchanged |
| NewDestination.DashRunsChars | src/pages/admin/NewDestination.tsx:19 | every output char is `-` or an input char |
| NewDestination.LeadingWsOfRun | src/pages/admin/NewDestination.tsx:19 | a whitespace run followed by a non-whitespace char is matched whole |
| NewDestination.LeadingWsAppend | src/pages/admin/NewDestination.tsx:19 | a run that ends inside a text is not extended by what follows the text |
| NewDestination.DashRunsOpeningRun | src/pages/admin/NewDestination.tsx:19 | a maximal opening run becomes a single `-` |
| NewDestination.DashRunsLeadingRun | src/pages/admin/NewDestination.tsx:19 | an opening run inside a longer text becomes one `-` and the rest is processed |
| NewDestination.DashRunsKeepsChar | src/pages/admin/NewDestination.tsx:19 | a non-whitespace first char is kept |
| NewDestination.DashRunsAtRun | src/pages/admin/NewDestination.tsx:19 | each maximal whitespace run between two parts becomes exactly one `-` between their results |
| NewDestination.DashRunsAtRunAfterWs | src/pages/admin/NewDestination.tsx:19 | the same when the first part opens with whitespace |
| NewDestination.DashRunsAtRunAfterChar | src/pages/admin/NewDestination.tsx:19 | the same when the first part opens with another char |
| NewDestination.Slugify | src/pages/admin/NewDestination.tsx:14-19 | the slug holds only a–z, 0–9 and `-`, has no whitespace, and is never longer than the title |
| NewDestination.SlugOfSlug | src/pages/admin/NewDestination.tsx:14-19 | a slug is its own slug |
| NewDestination.SlugifyIdempotent | src/pages/admin/NewDestination.tsx:14-19 | slugifying twice equals slugifying once |
| NewDestination.SlugOfPunctuation | src/pages/admin/NewDestination.tsx:14-19 | a title with no kept char gives the empty slug |
| NewDestination.TrimUnpadded | src/pages/admin/NewDestination.tsx:17 | text with no whitespace at either end is its own trim |
| NewDestination.DeleteTail | src/pages/admin/NewDestination.tsx:18 | kept chars followed by dropped chars leave only the kept ones |
| NewDestination.CaveTrimmed | src/pages/admin/NewDestination.tsx:16-17 | "Cave !" lowers and trims to "cave !" |
| NewDestination.CaveDeleted | src/pages/admin/NewDestination.tsx:18 | deleting from "cave !" gives "cave " |
| NewDestination.CaveDashed | src/pages/admin/NewDestination.tsx:19 | "cave " becomes "cave-" |
| NewDestination.CaveExample | src/pages/admin/NewDestination.tsx:14-19 | trim runs before deletion, so "Cave !" gives "cave-" with a trailing dash |
| NewDestination.SeaCaveTrimmed | src/pages/admin/NewDestination.tsx:16-18 | "Sea  Cave" lowers, trims and deletes to "sea  cave" |
| NewDestination.SeaCaveParts | src/pages/admin/NewDestination.tsx:19 | "sea  cave" is two words around one whitespace run |
| NewDestination.SeaCaveDashed | src/pages/admin/NewDestination.tsx:19 | the doubled space becomes one `-` |
| NewDestination.SeaCaveExample | src/pages/admin/NewDestination.tsx:14-19 | "Sea  Cave" gives "sea-cave" |
| NewDestination.EditTitle | src/pages/admin/NewDestination.tsx:168-174 | a title edit sets the title and sets the id to its slug, leaving the other fields alone |
| NewDestination.IdFollowsTitle | src/pages/admin/NewDestination.tsx:168-174 | after any edits, the form is as if only the last title had been typed |
| NewDestination.AttachImage | src/pages/admin/NewDestination.tsx:39-59 | a failed upload leaves the form unchanged; a successful one sets only the image url |
| NewDestination.Save | src/pages/admin/NewDestination.tsx:84-110 | refused exactly when the id, title or image url is empty, with the title message checked first; otherwise the form is inserted and fails exactly with the insert error |
| NewDestination.PunctuationTitleRefused | src/pages/admin/NewDestination.tsx:85-174 | a title of only punctuation yields an empty id and is refused |
| NewDestination.BangsRefused | src/pages/admin/NewDestination.tsx:85-174 | the title "!!!" is refused |
| ReviewForm.Validate | src/components/ReviewForm.tsx:42-53 | checked in the order name, rating, comment; each message exactly when its field fails and the earlier ones pass; accepted data is the form unchanged |
| ReviewForm.EmptyFormAsksForName | src/components/ReviewForm.tsx:29-45 | the form as it opens fails on the name |
| ReviewForm.OptionalFieldsIgnored | src/components/ReviewForm.tsx:42-53 | email, title and visit date never change the verdict |
| ReviewForm.PickedStarsPass | src/components/ReviewForm.tsx:42-57 | a name and comment with text and 1–5 stars pass, untrimmed |
| ReviewForm.Submit | src/components/ReviewForm.tsx:39-66 | data is sent exactly when valid; the dialog closes with the success toast exactly when the handler does not throw; otherwise the failure or validation message shows |
| AdminAuth.BearerToken | supabase/functions/reset-password/index.ts:26 | a header without "Bearer " is used as the token as it is; otherwise the first "Bearer ", wherever it is, is removed |
| AdminAuth.BearerPrefix | supabase/functions/reset-password/index.ts:26 | "Bearer " + token yields the token |
| AdminAuth.CallerOf | supabase/functions/reset-password/index.ts:21-35 | a caller exists exactly when the header is non-empty and its token is known, and is that token's user |
| AdminAuth.IsAdmin | supabase/functions/reset-password/index.ts:44 | the caller has a profile whose role is "admin" |
| AdminAuth.Guard | supabase/functions/reset-password/index.ts:11-46 | OPTIONS is answered "ok" first; then no caller gives 401 and a non-admin caller 403; exactly admin callers are admitted, as themselves |
| AdminAuth.GuardIgnoresBody | supabase/functions/v1/delete-user/index.ts:13-57 | the body is not read before the caller is admitted |
| AdminAuth.NoHeaderUnauthorized | supabase/functions/v1/delete-user/index.ts:23-29 | a missing or empty header gives 401 whatever the services hold |
| ResetPassword.Handle | supabase/functions/reset-password/index.ts:10-84 | the guard's answer when it answers; 500 for an unreadable body; 400 "Missing fields"; 400 for the caller's own id; a password update exactly when all pass, answered with the update error (400) or the JSON success |
| ResetPassword.NeverResetsCaller | supabase/functions/reset-password/index.ts:37-68 | every update is made by an admin caller and never targets the caller |
| ResetPassword.PreflightFirst | supabase/functions/reset-password/index.ts:11-13 | a preflight gets "ok" and changes nothing |
| ResetPassword.BodyReadAfterGuard | supabase/functions/reset-password/index.ts:21-48 | until the caller is admitted, the body makes no difference |
| ResetPassword.AdminResetsOther | supabase/functions/reset-password/index.ts:21-80 | an admin resetting another user's password gets the update and the JSON success |
| DeleteUser.Handle | supabase/functions/v1/delete-user/index.ts:12-91 | the guard's answer when it answers; 500 for an unreadable body; 400 "Missing user_id"; 400 "Cannot delete yourself"; otherwise the auth user and profile are deleted and the reply is always the JSON success |
| DeleteUser.NeverDeletesCaller | supabase/functions/v1/delete-user/index.ts:45-79 | every deletion is made by an admin caller and never targets the caller |
| DeleteUser.PreflightFirst | supabase/functions/v1/delete-user/index.ts:13-15 | a preflight gets "ok" and deletes nothing |
| DeleteUser.BodyReadAfterGuard | supabase/functions/v1/delete-user/index.ts:23-59 | until the caller is admitted, the body makes no difference |
| DeleteUser.SameGuardAsReset | supabase/functions/v1/delete-user/index.ts:13-57 | both functions give the same preflight, 401 and 403 answers to the same request |

## Left out

- Rendering: Photo Sphere Viewer and Pannellum setup, marker HTML and CSS, icons and layout. None of it is logic of this site.
- The viewer's scene menu toggle (`showMenu`) and the editor's add-mode and temporary-position state are left out. They are display flags.
- Floating point: the radian-to-degree rounding of clicked positions, the map-drag percentage clamp and all `toFixed` formatting are left out. Averages and star ratings use exact `real` arithmetic.
- Network and persistence: every database query, insert, update and storage call is replaced by its answer, passed as a parameter. Examples are `fetched`, `insertError`, `updateError`, `uploadError` and `publicUrlOf`. Non-string JSON fields are read as absent.
- The auth service's other failures are left out: `getUser` and the profile lookup are modelled as lookups in maps. Only an unreadable request body is modelled as the thrown error that gives 500.
- `createClient`, environment variables and the CORS header values are left out. Every reply carries the same headers, so only the JSON content-type flag is modelled.
- `alert` and `confirm` are left out. The delete operations model the path after the user confirms.
- The clock: `Date.now()` is the parameter `now: nat`.
- Date formatting with date-fns is left out.
- The page's review insert (`handleSubmitReview`) is represented only by whether it throws.
- The hover UI of StarRating is left out. It only ever emits ratings 1 to 5.
- Unicode case mapping: only ASCII letters change case. The whitespace that `trim` and `\s` match is modelled in full.
- UTF-16 code units: a Dafny `char` is a whole Unicode scalar value, while `n[0]` and `slice(0, 2)` in `getInitials` (src/components/ReviewsList.tsx:42-45) work on UTF-16 code units. For a name starting with a character outside the Basic Multilingual Plane, such as an emoji, the page shows a lone surrogate where the model keeps the whole character.
- The editor's marker construction: a kept hotspot without a `position` makes `hotspot.position.yaw` (src/components/HotspotEditor.tsx:65) throw. The throw is caught at :126, so no viewer and no markers are created. `HotspotEditor.Visible` models only the filter, not this failure.
- In-place mutation: the gallery delete mutates an aliased object, and the display sorts the array in place. Both are modelled as functions returning new lists.
- The create-user functions, the top-level function file, the auth guards (RequireAdmin, AuthGuard, AdminRoute) and the static and marketing pages are left out.
- NewDestination.DashRuns: its own contract states only the length bound. What it computes is stated by the lemmas `DashRunsNoWs`, `DashRunsWithoutWs`, `DashRunsChars` and `DashRunsAtRun`.
- NewDestination.Slugify: there is no all-inputs characterisation beyond the slug alphabet, length, idempotence and the worked examples. Each step is specified separately (`Lower`, `Trim`, `DeleteOthers`, the `DashRuns` lemmas).
- DestinationPage.LoadReviews: the average is exact, not an IEEE double.

## Findings

| source | as written | input that shows it | evidently intended | confidence | as-written member | corrected member |
|---|---|---|---|---|---|---|
| src/components/PanoramaViewer.tsx:32, 38, 56 | a move appends the id of the scene being left, while Back treats the last entry as the scene on show | scenes a (default), b, c; click a→b, then b→c, then Back: the history is [a, a, b] and Back shows a, skipping b | append the scene entered, so that the last entry is always the scene on show and Back returns to the previous scene | not executed | PanoramaViewer.BackSkipsScene | PanoramaViewer.BackUndoesEnterIntended |

The as-written behaviour is `PanoramaViewer.Enter` together with
`HistoryAfterOneMove`, `EnterBreaksConsistency` and `BackSkipsScene`. The
corrected move is `PanoramaViewer.EnterIntended`. It is proved to keep the
last entry equal to the scene on show, and `BackUndoesEnterIntended` and
`BackReturnsToPreviousScene` show that Back then undoes one move. `Click` and
`JumpTo` keep the code's behaviour, because they are the model of the
component as written.
