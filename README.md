# Canary branding, modelled in Dafny

A small script, `static/canary-branding.js`, rebrands an already-rendered web
page. It swaps the logo images for `/canary-logo.png` and replaces the brand
string "Open WebUI" with "Canary Builds". The replacement reaches body text
nodes, nine tracked attributes, the document title and five kinds of meta
`content`. A mutation observer then re-runs the same apply cycle whenever the
page changes.

The model has five modules:

- `BrandText` (`brand_text.dfy`): the two brand strings, substring search
  (`includes`), and the literal left-to-right, non-overlapping replace-all
  that the global regular expression performs. The key fact is "no residue":
  the result never contains "Open WebUI". It holds because "Canary Builds"
  contains no `O` and "Open WebUI" contains no `C`.
- `Dom` (`dom.dfy`): elements, text nodes, mutation records and the whole
  page, all as values.
- `Branding` (`branding.dfy`): each pass of `applyBranding` as a function on
  values, together with what the script promises about it:
  - the one-shot logo update;
  - text nodes under exempt parents are left alone;
  - only tracked attributes are rewritten;
  - meta content only in the listed metas;
  - the whole cycle brands any page, is idempotent, and leaves a page
    unchanged exactly when it is already branded.
- `Watcher` (`watcher.dfy`): the observer callback's decision for one batch
  of mutation records.
- `Applicator` (`document.dfy`): the live document as a class.
  - Its `elements` and `texts` are arrays updated in place.
  - Every DOM write appends a mutation record to `log`.
  - Each pass is a method with the script's own loops. It is proved to leave
    the document as the matching `Branding` function says.
  - It writes exactly when that pass has work to do. So a second apply cycle
    queues no records, and the observer's feedback loop stops after one echo
    (`Document.Settle`).

CSS selectors become predicates:
- `IsLogoImage` for the eight logo selectors;
- `HasBrandedAttribute` for the `[attr*="Open WebUI"]` list;
- `InMetaGroup` for the two meta queries.

`querySelectorAll` and the TreeWalker become scans over the arrays in document
order. A selector match is tested when the scan reaches an element. This gives
the same result as the script's static node lists, because no pass changes
whether an element it has not reached yet matches.

## Model

| member | source | states |
|---|---|---|
| BrandText.IncludesIffOccurs | static/canary-branding.js:64 | `includes` as a left-to-right scan holds exactly when the pattern occurs at some index |
| BrandText.ReplaceAll | static/canary-branding.js:69 | the global literal replace never shortens a string: each 10-character occurrence becomes 13 characters (what it produces is stated by the lemmas below) |
| BrandText.ReplaceAllSkips | static/canary-branding.js:69 | text with no `O` is copied through verbatim and the replace carries on after it |
| BrandText.ReplaceAllOccurrence | static/canary-branding.js:3-5 | an occurrence of "Open WebUI" preceded by text with no `O` is replaced by "Canary Builds", that text is kept, and the replace carries on with the text after it |
| BrandText.FirstStep | static/canary-branding.js:69 | when no occurrence of "Open WebUI" starts before a given one, the replace copies the first character and the same holds of the rest |
| BrandText.ReplaceAllFirst | static/canary-branding.js:3-5 | the first occurrence of "Open WebUI", wherever it starts, becomes "Canary Builds", the text before it is kept verbatim, and the replace carries on after it; with `ReplaceAllUnchanged` this fixes the result on every input |
| BrandText.ReplaceAllWelcome | static/canary-branding.js:63-69 | body text "Welcome to Open WebUI" becomes "Welcome to Canary Builds" |
| BrandText.ReplaceAllSettings | static/canary-branding.js:88-89 | the title "Open WebUI - Settings" becomes "Canary Builds - Settings" |
| BrandText.TargetNotSource | static/canary-branding.js:3-4 | "Canary Builds" does not contain "Open WebUI", so a rewritten value is never rewritten again |
| BrandText.NoResidue | static/canary-branding.js:3-5 | after the global literal replace, the string contains no occurrence of "Open WebUI" |
| BrandText.ReplaceAllUnchanged | static/canary-branding.js:64-69 | a string without "Open WebUI" comes back from the replace unchanged |
| BrandText.ReplaceAllIdempotent | static/canary-branding.js:69 | replacing a second time gives the same string as replacing once |
| BrandText.ReplaceAllChangesIff | static/canary-branding.js:80-81 | the replace changes a string exactly when the string includes "Open WebUI", so every includes-guarded write really changes the value |
| Branding.SwapKeepsAlt | static/canary-branding.js:26-34 | the source writes leave `alt` alone, so the alt rule tests the alt text the image came with |
| Branding.UpdateImageWritesNames | static/canary-branding.js:21-41 | every record `updateImage` queues is an attribute record for one of the logo attributes (`data-original-src`, `data-canary-logo-applied`, `srcset`, `src`, `data-canary-logo`, `alt`, `class`, `style`); it queues none exactly when the image is already marked |
| Branding.UpdateImageMarkerGuard | static/canary-branding.js:21-24 | an image already marked `canaryLogoApplied = 'true'` is left exactly as it is |
| Branding.UpdateImageFields | static/canary-branding.js:26-41 | on an unmarked image: `src` becomes `/canary-logo.png`; `srcset` is gone; both markers are `'true'`; `originalSrc` keeps an earlier non-empty value and otherwise takes the old `src`; `dark:invert` is removed; the filter is empty; the tag and every other attribute are unchanged |
| Branding.UpdateImageAltRule | static/canary-branding.js:32-34 | alt becomes "Canary Builds" exactly when it was empty, `logo`, or contained "Open WebUI"; otherwise it is unchanged |
| Branding.UpdateImageOneShot | static/canary-branding.js:21-30 | one update always marks the image, so a second update is a no-op; an updated IMG matches the selector list again through `img[src$="logo.png"]`, and the marker is what stops it being processed twice |
| Branding.LogoPassRule | static/canary-branding.js:44-55 | the logo pass changes the elements exactly when some matched logo is unmarked; afterwards every matched element is marked |
| Branding.TextPassRule | static/canary-branding.js:57-70 | with no body nothing changes; a node whose immediate parent is SCRIPT, STYLE, NOSCRIPT, TEXTAREA or CODE is kept verbatim; any other node ends holding exactly the replaced value of its text, with no "Open WebUI"; parents are unchanged |
| Branding.TextPassChangesIff | static/canary-branding.js:63-70 | the text pass changes a node exactly when there is a body and some node is non-empty, names the source brand and is not exempt |
| Branding.RewriteAttributesAt | static/canary-branding.js:78-83 | the forEach over the tracked names rewrites each attribute independently: the result for one name depends only on that attribute's own value; no attribute is added or removed |
| Branding.AttributePassRule | static/canary-branding.js:73-84 | the attribute pass keeps tag, classes, filter and the set of attribute names; it rewrites exactly the tracked attributes that contain "Open WebUI"; untracked ones keep their value even if they contain it; afterwards no tracked attribute names the source brand |
| Branding.UntrackedAttributeKept | static/canary-branding.js:9-19 | an attribute outside the nine tracked names is never changed by the attribute pass |
| Branding.AttributePassKeepsLogos | static/canary-branding.js:44-52 | the attribute pass neither adds nor removes a match of the logo selector list (the `LOGO_SELECTORS` of line 8 spread into lines 45-52) or a logo marker |
| Branding.AttributePassChangesIff | static/canary-branding.js:77-84 | the attribute pass changes the elements exactly when some element has a tracked attribute naming the source brand |
| Branding.DocumentPassTitle | static/canary-branding.js:88-90 | on every page the document pass leaves the title as the replace of the old title (the guard skips only titles the replace keeps) |
| Branding.DocumentPassSettings | static/canary-branding.js:88-90 | a page titled "Open WebUI - Settings" ends titled "Canary Builds - Settings" |
| Branding.DocumentPassRule | static/canary-branding.js:87-108 | the document pass leaves the title with no "Open WebUI", and unchanged if it had none; elements outside both meta groups are untouched; a meta in a group keeps its tag, classes, filter and every other attribute, has `content` exactly when it had it, and that `content` becomes the replaced value |
| Branding.DocumentPendingStages | static/canary-branding.js:88-107 | the document pass has work to do exactly when the title, an application-name meta, or (after that loop) an Open Graph or description meta names the source brand |
| Branding.ApplyBrands | static/canary-branding.js:111-116 | one apply cycle leaves every matched logo marked and no tracked attribute, non-exempt body text or title naming the source brand |
| Branding.ApplyKeepsMarkedLogo | static/canary-branding.js:21-24 | an image already marked keeps its `src` and `data-original-src` and stays marked through a further apply cycle, so the swap happens once |
| Branding.ApplyNonMetaElement | static/canary-branding.js:111-116 | an element that is not a meta ends the cycle as the logo pass and then the attribute pass leave it; the text and document passes do not touch it |
| Branding.UpdatedLogoKept | static/canary-branding.js:26-30 | after `updateImage`, the attribute pass keeps the tag, `src` = `/canary-logo.png`, the missing `srcset`, `data-original-src` and the marker, none of them tracked |
| Branding.UpdatedLogoAltKept | static/canary-branding.js:32-34 | an alt text set to "Canary Builds" by `updateImage` survives the attribute pass |
| Branding.ApplyLogoFields | static/canary-branding.js:21-54 | after one apply cycle, a matched logo that was unmarked has `src` `/canary-logo.png`, no `srcset`, `data-original-src` holding its earlier recorded or original source, the marker, and alt "Canary Builds" when its alt was empty, `logo` or named the source brand |
| Branding.BrandedFixpoint | static/canary-branding.js:111-116 | an apply cycle on a branded page changes nothing |
| Branding.ApplyIdempotent | static/canary-branding.js:111-116 | two apply cycles leave the page as one does |
| Branding.ApplyFixpointIff | static/canary-branding.js:111-116 | an apply cycle leaves a page unchanged exactly when the page is already branded |
| Branding.BrandedNothingPending | static/canary-branding.js:111-116 | on a branded page no pass has any work to do |
| Branding.ApplyStages | static/canary-branding.js:111-116 | the four passes in order compute the apply cycle; on a branded page no stage has work; when no stage has work and the document pass changes nothing, the page was branded |
| Branding.ApplyLeavesUntouched | static/canary-branding.js:57-84 | an apply cycle never changes text under an exempt parent, nor the untracked attributes, classes or filter of an element that is not a matched logo |
| Branding.MetaPassOnClean | static/canary-branding.js:92-108 | after the attribute pass has cleared every tracked attribute, including `content`, both meta loops change nothing |
| Watcher.Reapplications | static/canary-branding.js:123-138 | a batch triggers at most one re-apply, and exactly one when some record is childList or characterData, or is an attributes record whose name is tracked |
| Watcher.FirstQualifying | static/canary-branding.js:124-137 | the scan stops at the first qualifying record: no record before it qualifies, and there is such a record exactly when the batch re-applies |
| Watcher.ReapplicationsConcat | static/canary-branding.js:124-137 | records after the first qualifying one are never looked at; two batches merged re-apply once exactly when either would alone |
| Applicator.Document.UpdateImage | static/canary-branding.js:21-42 | a null or marked image queues no record and changes nothing; otherwise only that element changes, to the `Branding.UpdatedImage` value, and the log grows by exactly `Branding.UpdateImageWrites`, all attribute records for logo attributes |
| Applicator.Document.RebrandImage | static/canary-branding.js:26-41 | on an unmarked image the source swap followed by the alt and styling writes leave the element as `Branding.UpdatedImage` says and queue exactly `Branding.UpdateImageWrites` |
| Applicator.Document.SwapSource | static/canary-branding.js:26-30 | the source writes leave the element as `Branding.SwapLogoSource` says and queue one attribute record each, in write order: `data-original-src`, `data-canary-logo-applied`, `srcset` only when it was present, `src`, `data-canary-logo` |
| Applicator.Document.Restyle | static/canary-branding.js:32-41 | the alt, class and filter writes leave the element as `Branding.RestyleLogo` says and queue one attribute record for each write the conditions let through (`alt`, `class`, `style`) |
| Applicator.Document.UpdateAllLogos | static/canary-branding.js:44-55 | the elements end as `Branding.LogoPass` of the old ones; every record queued is an attribute record for a logo attribute, and one is queued exactly when some matched logo was unmarked |
| Applicator.Document.ReplaceTextNodes | static/canary-branding.js:57-71 | the text nodes end as `Branding.TextPass` of the old ones; every record queued is a characterData record, and one is queued exactly when the text pass had work |
| Applicator.Document.ReplaceElementAttributes | static/canary-branding.js:77-84 | one element of the attribute pass: it ends as `Branding.AttributePassElement` says, the rest are untouched; every record queued is an attribute record for a tracked name, and one is queued exactly when the selector list matches it |
| Applicator.Document.RewriteTrackedAttributes | static/canary-branding.js:78-83 | the forEach over the names rewrites the element's attributes as `Branding.RewriteAttributes` does; every record queued is an attribute record for one of the names, and one is queued exactly when some name's value includes the source brand |
| Applicator.Document.ReplaceAttributeBranding | static/canary-branding.js:73-85 | the elements end as `Branding.AttributePass` of the old ones; every record queued is an attribute record for a tracked name, and one is queued exactly when some element matched |
| Applicator.Document.ReplaceMetaElement | static/canary-branding.js:94-98 | one meta of a group: its `content` is rewritten, and exactly one `content` attribute record is queued, when it names the source brand; otherwise nothing changes and nothing is queued |
| Applicator.Document.ReplaceMetaContent | static/canary-branding.js:92-108 | one meta loop ends as `Branding.MetaPass` of the old elements; every record queued is a `content` attribute record, and one is queued exactly when some meta of the group had work |
| Applicator.Document.ReplaceDocumentBranding | static/canary-branding.js:87-109 | the page ends as `Branding.DocumentPass` of the old page; the records queued are one childList record first exactly when the title was rewritten, then only `content` attribute records; records are queued exactly when the document pass had work, and no record means no change |
| Applicator.Document.ApplyBranding | static/canary-branding.js:111-116 | the page ends as `Branding.Apply` of the old page; the cycle queues no record exactly when the page was already branded |
| Applicator.Document.OnMutations | static/canary-branding.js:123-138 | the callback applies the branding `Watcher.Reapplications(batch)` times; the page ends applied or untouched accordingly; a batch that does not qualify queues nothing |
| Applicator.Document.Settle | static/canary-branding.js:123-147 | the log grows by the echo (the records the first callback queues) and then by nothing: the echo is empty exactly when the batch did not qualify or the page was already branded; a qualifying batch leaves the page branded, so the second callback, fed the echo, queues nothing; the page ends as one apply cycle leaves it |

## Left out

- `static/static/loader.js` is not part of this model. It only checks that a global function exists and registers an event listener.
- The observer wiring is not modelled:
  - constructing the `MutationObserver`;
  - the `observe` targets and options;
  - the `DOMContentLoaded` / `readyState` start-up;
  - the `window.__applyCanaryBranding` and `window.__canaryBrandingObserver` globals (static/canary-branding.js:118, 139-163).

  The model keeps the callback's decision and the echo of its own writes.
- The initial `applyBranding()` call of `initBranding` is not modelled separately. It is `Document.ApplyBranding` on the starting page.
- Selector engine, `querySelectorAll` and TreeWalker internals are replaced by predicates and document-order arrays. The model has no node tree: an element is a record, and a text node carries only its immediate parent's tag name. The dead `if (!selector) return;` has no counterpart, because the selector list is never empty.
- The `img.src` getter resolves to an absolute URL. Here `src` is the attribute string, so `originalSrc` records the attribute value.
- The `document.title` getter normalises whitespace; the model reads and writes the title string as is. The text node inside `<title>` is not in `texts`: the title is its own field.
- Setting `document.title` is modelled as one childList record (the text child of `<title>` is replaced).
- Mutation records carry only their kind and, for attributes, the attribute name. Targets, old values and the `attributeFilter` delivery rules are not modelled. Every write queues one record, including a write of a value already present; removing an absent `srcset` queues none.
- Class lists are modelled as sets, and `style` only as its `filter` string. Image loading, rendering and the timing of observer microtasks are not modelled.
- `Applicator.Document.ApplyBranding`: which records the cycle queues is stated pass by pass, on the four pass methods; the cycle's own contract states only that its log extends the old one and when it is empty.
- `Applicator.Document.OnMutations`: when the batch qualifies, its contract says nothing about the records beyond what `ApplyBranding` promises. It does not say which record stopped the scan; `Watcher.FirstQualifying` states that on values.
