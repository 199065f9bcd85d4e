/** What one apply cycle does to the page, as functions on values: the logo pass
    (`updateAllLogos` / `updateImage`), the text-node pass (`replaceTextNodes`),
    the attribute pass (`replaceAttributeBranding`), the document pass
    (`replaceDocumentBranding`) and their composition (`applyBranding`).
    The imperative passes of module Applicator are proved against these. */
module Branding {
  import opened BrandText
  import opened Dom

  /** The brand configuration. */
  const LogoPath: string := "/canary-logo.png"
  const SkipTextTags: set<string> := {"SCRIPT", "STYLE", "NOSCRIPT", "TEXTAREA", "CODE"}
  const AttributeTargets: seq<string> :=
    ["title", "aria-label", "aria-description", "aria-labelledby", "alt",
     "placeholder", "content", "data-title", "data-tooltip"]

  /** The attributes behind `dataset.originalSrc` and `dataset.canaryLogoApplied`,
      the extra marker attribute and the class removed from a logo. */
  const OriginalSrcAttr: string := "data-original-src"
  const LogoAppliedAttr: string := "data-canary-logo-applied"
  const LogoMarkerAttr: string := "data-canary-logo"
  const DarkInvert: string := "dark:invert"

  // ---------------------------------------------------------------- logo pass

  predicate EndsWith(s: string, suffix: string)
  {
    |suffix| <= |s| && s[|s| - |suffix|..] == suffix
  }

  /** `[name="v"]`: the attribute is present with exactly value `v`. */
  predicate AttributeIs(e: Element, name: string, v: string)
  {
    GetAttribute(e, name) == Some(v)
  }

  /** `[src$="suffix"]`. */
  predicate SrcEndsWith(e: Element, suffix: string)
  {
    "src" in e.attrs && EndsWith(e.attrs["src"], suffix)
  }

  /** The selector list of `updateAllLogos`: `img#logo`, `img#logo-her`,
      `img[alt="logo"]` and five `img[src$=…]` filename suffixes. */
  predicate IsLogoImage(e: Element)
  {
    e.tag == "IMG" &&
    (|| AttributeIs(e, "id", "logo")
     || AttributeIs(e, "id", "logo-her")
     || AttributeIs(e, "alt", "logo")
     || SrcEndsWith(e, "splash.png")
     || SrcEndsWith(e, "splash-dark.png")
     || SrcEndsWith(e, "favicon.png")
     || SrcEndsWith(e, "favicon-dark.png")
     || SrcEndsWith(e, "logo.png"))
  }

  /** `img.dataset.canaryLogoApplied === 'true'`. */
  predicate IsMarked(e: Element)
  {
    AttributeIs(e, LogoAppliedAttr, "true")
  }

  /** `img.src` (an opaque string; "" when the attribute is absent). */
  function ImageSrc(e: Element): string
  {
    GetAttribute(e, "src").GetOr("")
  }

  /** `img.alt` ("" when the attribute is absent). */
  function ImageAlt(e: Element): string
  {
    GetAttribute(e, "alt").GetOr("")
  }

  /** `img.dataset.originalSrc || img.src`: an earlier non-empty record wins. */
  function OriginalSrc(e: Element): string
  {
    var recorded := GetAttribute(e, OriginalSrcAttr).GetOr("");
    if recorded != "" then recorded else ImageSrc(e)
  }

  /** The alt text is empty, the generic "logo", or names the old brand. */
  predicate AltNeedsBrand(alt: string)
  {
    alt == "" || alt == "logo" || Includes(alt, Source)
  }

  /** The first half of `updateImage`: record the original source, set the
      marker, drop `srcset`, point `src` at the new logo and tag the element. */
  function SwapLogoSource(img: Element): Element
  {
    var recorded := img.attrs[OriginalSrcAttr := OriginalSrc(img)][LogoAppliedAttr := "true"];
    img.(attrs := (recorded - {"srcset"})["src" := LogoPath][LogoMarkerAttr := "true"])
  }

  /** The second half: relabel a generic or old-brand alt text, and drop the
      dark-theme inversion class and the inline filter. */
  function RestyleLogo(img: Element): Element
  {
    var attrs := if AltNeedsBrand(ImageAlt(img)) then img.attrs["alt" := Target] else img.attrs;
    img.(attrs := attrs, classes := img.classes - {DarkInvert}, filter := "")
  }

  /** `updateImage` on a present image. */
  function UpdatedImage(img: Element): Element
  {
    if IsMarked(img) then img else RestyleLogo(SwapLogoSource(img))
  }

  /** Swapping the source leaves the alt text alone, so the alt rule of the
      second half sees the alt text the image came with. */
  lemma SwapKeepsAlt(img: Element)
    ensures GetAttribute(SwapLogoSource(img), "alt") == GetAttribute(img, "alt")
  {
  }

  /** The attributes `updateImage` may write. */
  const ImageAttrs: set<string> := {OriginalSrcAttr, LogoAppliedAttr, "srcset", "src", LogoMarkerAttr, "alt"}

  /** The attribute names whose writes `updateImage` queues records for. */
  const LogoWriteNames: seq<string> :=
    [OriginalSrcAttr, LogoAppliedAttr, "srcset", "src", LogoMarkerAttr, "alt", "class", "style"]

  /** The records the source swap queues, in write order: one per write, and
      none for removing a `srcset` that is absent. */
  function SwapSourceWrites(img: Element): seq<MutationRecord>
  {
    [AttributeWrite(OriginalSrcAttr), AttributeWrite(LogoAppliedAttr)]
    + (if "srcset" in img.attrs then [AttributeWrite("srcset")] else [])
    + [AttributeWrite("src"), AttributeWrite(LogoMarkerAttr)]
  }

  /** The records the alt and styling writes queue: one for each write the
      conditions let through. */
  function RestyleWrites(img: Element): seq<MutationRecord>
  {
    (if AltNeedsBrand(ImageAlt(img)) then [AttributeWrite("alt")] else [])
    + (if DarkInvert in img.classes then [AttributeWrite("class")] else [])
    + (if img.filter != "" then [AttributeWrite("style")] else [])
  }

  /** The records `updateImage` queues on a present image. */
  function UpdateImageWrites(img: Element): seq<MutationRecord>
  {
    if IsMarked(img) then [] else SwapSourceWrites(img) + RestyleWrites(img)
  }

  /** Every record `updateImage` queues is an attribute write of one of the
      logo attributes, and an unmarked image always queues some. */
  lemma UpdateImageWritesNames(img: Element)
    ensures AttributeRecords(UpdateImageWrites(img), LogoWriteNames)
    ensures UpdateImageWrites(img) == [] <==> IsMarked(img)
  {
  }

  /** On an unmarked image the records are those of the two halves, the second
      half seeing the element the first one left. */
  lemma UpdateImageWritesSplit(img: Element)
    requires !IsMarked(img)
    ensures UpdateImageWrites(img) == SwapSourceWrites(img) + RestyleWrites(SwapLogoSource(img))
  {
    SwapKeepsAlt(img);
  }

  /** Marker guard: an image already marked is left exactly as it is. */
  lemma UpdateImageMarkerGuard(img: Element)
    requires IsMarked(img)
    ensures UpdatedImage(img) == img
  {
  }

  /** The fields the first update sets, and nothing else it touches. */
  lemma UpdateImageFields(img: Element)
    requires !IsMarked(img)
    ensures var r := UpdatedImage(img);
      && GetAttribute(r, "src") == Some(LogoPath)
      && "srcset" !in r.attrs
      && AttributeIs(r, LogoAppliedAttr, "true")
      && AttributeIs(r, LogoMarkerAttr, "true")
      && GetAttribute(r, OriginalSrcAttr) ==
           (if GetAttribute(img, OriginalSrcAttr).GetOr("") != "" then GetAttribute(img, OriginalSrcAttr)
            else Some(ImageSrc(img)))
      && r.classes == img.classes - {DarkInvert}
      && r.filter == ""
      && r.tag == img.tag
      && (forall a :: a !in ImageAttrs ==> GetAttribute(r, a) == GetAttribute(img, a))
  {
  }

  /** Alt rule: the alt text becomes the target brand exactly when it was empty,
      "logo" or contained the source brand; otherwise it is unchanged. */
  lemma UpdateImageAltRule(img: Element)
    requires !IsMarked(img)
    ensures GetAttribute(UpdatedImage(img), "alt") ==
      if AltNeedsBrand(ImageAlt(img)) then Some(Target) else GetAttribute(img, "alt")
  {
  }

  /** One-shot: the update marks the image, a second update changes nothing, and
      this is what keeps an updated image (whose new src ends in "logo.png" and so
      matches the selector list again) from being processed twice. */
  lemma UpdateImageOneShot(img: Element)
    ensures IsMarked(UpdatedImage(img))
    ensures UpdatedImage(UpdatedImage(img)) == UpdatedImage(img)
    ensures !IsMarked(img) && img.tag == "IMG" ==> IsLogoImage(UpdatedImage(img))
  {
    var r := UpdatedImage(img);
    if !IsMarked(img) {
      assert r.attrs[LogoAppliedAttr] == "true";
      assert r.attrs["src"] == LogoPath;
      assert LogoPath[|LogoPath| - |"logo.png"|..] == "logo.png";
      assert SrcEndsWith(r, "logo.png");
    }
  }

  /** `updateImage` applied to every element the selector list matches. */
  function LogoPassElement(e: Element): Element
  {
    if IsLogoImage(e) then UpdatedImage(e) else e
  }

  function LogoPass(es: seq<Element>): (r: seq<Element>)
    ensures |r| == |es|
  {
    seq(|es|, k requires 0 <= k < |es| => LogoPassElement(es[k]))
  }

  /** Some matched logo is still unmarked: the logo pass has work to do. */
  predicate LogoPending(es: seq<Element>)
  {
    exists k :: 0 <= k < |es| && IsLogoImage(es[k]) && !IsMarked(es[k])
  }

  /** Passing one more element of `es` through the logo pass. */
  lemma LogoPassExtend(es: seq<Element>, i: nat)
    requires i < |es|
    ensures LogoPass(es[..i + 1]) + es[i + 1..] == (LogoPass(es[..i]) + es[i..])[i := LogoPassElement(es[i])]
  {
  }

  /** Extending the scanned prefix by one element adds that element's work. */
  lemma LogoPendingExtend(es: seq<Element>, i: nat)
    requires i < |es|
    ensures LogoPending(es[..i + 1]) <==> LogoPending(es[..i]) || (IsLogoImage(es[i]) && !IsMarked(es[i]))
  {
    if LogoPending(es[..i + 1]) && !(IsLogoImage(es[i]) && !IsMarked(es[i])) {
      var k :| 0 <= k < i + 1 && IsLogoImage(es[..i + 1][k]) && !IsMarked(es[..i + 1][k]);
      assert es[..i][k] == es[k];
    }
    if LogoPending(es[..i]) {
      var k :| 0 <= k < i && IsLogoImage(es[..i][k]) && !IsMarked(es[..i][k]);
      assert es[..i + 1][k] == es[k];
    }
    if IsLogoImage(es[i]) && !IsMarked(es[i]) {
      assert es[..i + 1][i] == es[i];
    }
  }

  /** The logo pass changes the elements exactly when it has work to do, and
      afterwards every element the selectors match carries the marker. */
  lemma LogoPassRule(es: seq<Element>)
    ensures LogoPass(es) != es <==> LogoPending(es)
    ensures forall k :: 0 <= k < |es| && IsLogoImage(es[k]) ==> IsMarked(LogoPass(es)[k])
    ensures forall k :: 0 <= k < |es| && IsLogoImage(LogoPass(es)[k]) ==> IsMarked(LogoPass(es)[k])
  {
    var r := LogoPass(es);
    if LogoPending(es) {
      var k :| 0 <= k < |es| && IsLogoImage(es[k]) && !IsMarked(es[k]);
      assert IsMarked(r[k]);
    }
    forall k | 0 <= k < |es| && IsLogoImage(es[k])
      ensures IsMarked(r[k])
    {
      UpdateImageOneShot(es[k]);
    }
  }

  // ----------------------------------------------------------- text-node pass

  /** The immediate parent is one of the tags whose text is never rewritten. */
  predicate IsExempt(n: TextNode)
  {
    n.parentTag in SkipTextTags
  }

  /** `replaceTextNodes` rewrites this node: non-empty, names the source brand,
      and its immediate parent is not exempt. */
  predicate NeedsRewrite(n: TextNode)
  {
    n.value != "" && Includes(n.value, Source) && !IsExempt(n)
  }

  function RewriteTextNode(n: TextNode): TextNode
  {
    if NeedsRewrite(n) then n.(value := ReplaceAll(n.value)) else n
  }

  /** The walk over the body's text nodes; with no body it does nothing. */
  function TextPass(hasBody: bool, ts: seq<TextNode>): (r: seq<TextNode>)
    ensures |r| == |ts|
  {
    if !hasBody then ts
    else seq(|ts|, k requires 0 <= k < |ts| => RewriteTextNode(ts[k]))
  }

  predicate TextPending(hasBody: bool, ts: seq<TextNode>)
  {
    hasBody && exists k :: 0 <= k < |ts| && NeedsRewrite(ts[k])
  }

  /** Text-node rule: with no body nothing changes; otherwise a node under an
      exempt immediate parent is kept verbatim, every other node ends with no
      occurrence of the source brand, and its parent is untouched. */
  lemma TextPassRule(hasBody: bool, ts: seq<TextNode>, k: nat)
    requires k < |ts|
    ensures !hasBody ==> TextPass(hasBody, ts)[k] == ts[k]
    ensures IsExempt(ts[k]) ==> TextPass(hasBody, ts)[k] == ts[k]
    ensures hasBody && !IsExempt(ts[k]) ==> TextPass(hasBody, ts)[k].value == ReplaceAll(ts[k].value)
    ensures hasBody && !IsExempt(ts[k]) ==> !Includes(TextPass(hasBody, ts)[k].value, Source)
    ensures TextPass(hasBody, ts)[k].parentTag == ts[k].parentTag
  {
    NoResidue(ts[k].value);
    if !Includes(ts[k].value, Source) {
      ReplaceAllUnchanged(ts[k].value);
    }
  }

  /** The text pass changes a node exactly when it has work to do. */
  lemma TextPassChangesIff(hasBody: bool, ts: seq<TextNode>)
    ensures TextPass(hasBody, ts) != ts <==> TextPending(hasBody, ts)
  {
    var r := TextPass(hasBody, ts);
    if TextPending(hasBody, ts) {
      var k :| 0 <= k < |ts| && NeedsRewrite(ts[k]);
      ReplaceAllChangesIff(ts[k].value);
      assert r[k] != ts[k];
    } else if hasBody {
      assert forall k :: 0 <= k < |ts| ==> r[k] == ts[k];
    }
  }

  // ----------------------------------------------------------- attribute pass

  /** Attribute `name` is present and its value includes the source brand. */
  predicate NamesSource(attrs: map<string, string>, name: string)
  {
    name in attrs && Includes(attrs[name], Source)
  }

  /** The `[attr*="Open WebUI"]` selector list over the tracked attributes. */
  predicate HasBrandedAttribute(e: Element)
  {
    exists k :: 0 <= k < |AttributeTargets| && NamesSource(e.attrs, AttributeTargets[k])
  }

  /** One attribute of the element: when present and naming the source brand,
      its value is replaced; otherwise it is kept. */
  function RewriteAttribute(attrs: map<string, string>, name: string): map<string, string>
  {
    if NamesSource(attrs, name) then attrs[name := ReplaceAll(attrs[name])] else attrs
  }

  /** The `ATTRIBUTE_TARGETS.forEach` over one element, in list order. */
  function RewriteAttributes(attrs: map<string, string>, names: seq<string>): map<string, string>
    decreases |names|
  {
    if names == [] then attrs
    else RewriteAttributes(RewriteAttribute(attrs, names[0]), names[1..])
  }

  /** Each attribute is rewritten independently of the others: the result for
      one name depends only on that attribute's own value. */
  lemma {:induction false} RewriteAttributesAt(attrs: map<string, string>, names: seq<string>, a: string)
    ensures a in RewriteAttributes(attrs, names) <==> a in attrs
    ensures a in attrs ==> RewriteAttributes(attrs, names)[a] ==
                           (if a in names && Includes(attrs[a], Source) then ReplaceAll(attrs[a]) else attrs[a])
    decreases |names|
  {
    if names != [] {
      var once := RewriteAttribute(attrs, names[0]);
      RewriteAttributesAt(once, names[1..], a);
      if a in attrs && a == names[0] && Includes(attrs[a], Source) {
        NoResidue(attrs[a]);
      }
    }
  }

  function AttributePassElement(e: Element): Element
  {
    if HasBrandedAttribute(e) then e.(attrs := RewriteAttributes(e.attrs, AttributeTargets)) else e
  }

  function AttributePass(es: seq<Element>): (r: seq<Element>)
    ensures |r| == |es|
  {
    seq(|es|, k requires 0 <= k < |es| => AttributePassElement(es[k]))
  }

  predicate AttributePending(es: seq<Element>)
  {
    exists k :: 0 <= k < |es| && HasBrandedAttribute(es[k])
  }

  /** Passing one more element of `es` through the attribute pass. */
  lemma AttributePassExtend(es: seq<Element>, i: nat)
    requires i < |es|
    ensures AttributePass(es[..i + 1]) + es[i + 1..] ==
            (AttributePass(es[..i]) + es[i..])[i := AttributePassElement(es[i])]
  {
  }

  /** Extending the scanned prefix by one element adds that element's match. */
  lemma AttributePendingExtend(es: seq<Element>, i: nat)
    requires i < |es|
    ensures AttributePending(es[..i + 1]) <==> AttributePending(es[..i]) || HasBrandedAttribute(es[i])
  {
    if AttributePending(es[..i + 1]) && !HasBrandedAttribute(es[i]) {
      var k :| 0 <= k < i + 1 && HasBrandedAttribute(es[..i + 1][k]);
      assert es[..i][k] == es[k];
    }
    if AttributePending(es[..i]) {
      var k :| 0 <= k < i && HasBrandedAttribute(es[..i][k]);
      assert es[..i + 1][k] == es[k];
    }
    if HasBrandedAttribute(es[i]) {
      assert es[..i + 1][i] == es[i];
    }
  }

  /** Attribute rule: the set of attributes is the same; a tracked attribute
      that names the source brand is replaced and the others keep their value
      even if they contain it; afterwards no tracked attribute names the source. */
  lemma AttributePassRule(e: Element, a: string)
    ensures var r := AttributePassElement(e);
      && r.tag == e.tag && r.classes == e.classes && r.filter == e.filter
      && (a in r.attrs <==> a in e.attrs)
      && (a in e.attrs ==>
            r.attrs[a] == (if a in AttributeTargets && Includes(e.attrs[a], Source) then ReplaceAll(e.attrs[a]) else e.attrs[a]))
      && !HasBrandedAttribute(r)
  {
    var r := AttributePassElement(e);
    if HasBrandedAttribute(e) {
      RewriteAttributesAt(e.attrs, AttributeTargets, a);
      forall k | 0 <= k < |AttributeTargets|
        ensures !NamesSource(r.attrs, AttributeTargets[k])
      {
        var b := AttributeTargets[k];
        RewriteAttributesAt(e.attrs, AttributeTargets, b);
        if b in e.attrs {
          NoResidue(e.attrs[b]);
        }
      }
    }
  }

  /** The attribute pass neither adds nor removes a logo match or a marker: the
      only selector attribute it can rewrite is `alt`, and a rewritten alt is
      longer than "logo" both before and after. */
  lemma AttributePassKeepsLogos(e: Element)
    ensures IsLogoImage(AttributePassElement(e)) == IsLogoImage(e)
    ensures IsMarked(AttributePassElement(e)) == IsMarked(e)
  {
    var r := AttributePassElement(e);
    SelectorAttributesUntracked();
    UntrackedAttributeKept(e, "id");
    UntrackedAttributeKept(e, "src");
    UntrackedAttributeKept(e, LogoAppliedAttr);
    AltLogoKept(e);
    LogoSelectionAgrees(e, r);
  }

  /** Logo selection and the marker read only the tag and the `id`, `alt`,
      `src` and marker attributes. */
  lemma LogoSelectionAgrees(e: Element, r: Element)
    requires r.tag == e.tag
    requires GetAttribute(r, "id") == GetAttribute(e, "id")
    requires GetAttribute(r, "src") == GetAttribute(e, "src")
    requires GetAttribute(r, LogoAppliedAttr) == GetAttribute(e, LogoAppliedAttr)
    requires AttributeIs(r, "alt", "logo") == AttributeIs(e, "alt", "logo")
    ensures IsLogoImage(r) == IsLogoImage(e)
    ensures IsMarked(r) == IsMarked(e)
  {
    assert ("src" in r.attrs) == ("src" in e.attrs);
    if "src" in e.attrs {
      assert r.attrs["src"] == e.attrs["src"];
    }
  }

  /** An alt text is "logo" after the attribute pass exactly when it was before. */
  lemma AltLogoKept(e: Element)
    ensures AttributeIs(AttributePassElement(e), "alt", "logo") == AttributeIs(e, "alt", "logo")
  {
    var r := AttributePassElement(e);
    if HasBrandedAttribute(e) {
      RewriteAttributesAt(e.attrs, AttributeTargets, "alt");
    }
    if HasBrandedAttribute(e) && "alt" in e.attrs {
      var alt := e.attrs["alt"];
      if Includes(alt, Source) {
        IncludesLength(alt, Source);
        assert |r.attrs["alt"]| >= |Source|;
        assert alt != "logo";
      } else {
        assert r.attrs["alt"] == alt;
      }
    }
  }

  /** The attributes that logo selection reads, other than `alt`, are untracked. */
  lemma SelectorAttributesUntracked()
    ensures "id" !in AttributeTargets && "src" !in AttributeTargets && LogoAppliedAttr !in AttributeTargets
  {
  }

  /** An attribute outside the tracked list is never rewritten. */
  lemma UntrackedAttributeKept(e: Element, a: string)
    requires a !in AttributeTargets
    ensures GetAttribute(AttributePassElement(e), a) == GetAttribute(e, a)
    ensures AttributePassElement(e).tag == e.tag
  {
    if HasBrandedAttribute(e) {
      RewriteAttributesAt(e.attrs, AttributeTargets, a);
    }
  }

  /** The attribute pass changes an element exactly when it has work to do. */
  lemma AttributePassChangesIff(es: seq<Element>)
    ensures AttributePass(es) != es <==> AttributePending(es)
  {
    var r := AttributePass(es);
    if AttributePending(es) {
      var k :| 0 <= k < |es| && HasBrandedAttribute(es[k]);
      var j :| 0 <= j < |AttributeTargets| && NamesSource(es[k].attrs, AttributeTargets[j]);
      var a := AttributeTargets[j];
      AttributePassRule(es[k], a);
      ReplaceAllChangesIff(es[k].attrs[a]);
      assert r[k].attrs[a] != es[k].attrs[a];
    } else {
      assert forall k :: 0 <= k < |es| ==> r[k] == es[k];
    }
  }

  // ------------------------------------------------------------ document pass

  /** The two meta queries of `replaceDocumentBranding`. */
  datatype MetaGroup = AppName | Summary

  /** `meta[name="application-name"], meta[name="apple-mobile-web-app-title"]`, or
      `meta[property="og:title"], meta[property="og:site_name"], meta[name="description"]`. */
  predicate InMetaGroup(e: Element, g: MetaGroup)
  {
    e.tag == "META" &&
    match g
    case AppName => AttributeIs(e, "name", "application-name") || AttributeIs(e, "name", "apple-mobile-web-app-title")
    case Summary =>
      AttributeIs(e, "property", "og:title") || AttributeIs(e, "property", "og:site_name")
      || AttributeIs(e, "name", "description")
  }

  function MetaPassElement(e: Element, g: MetaGroup): Element
  {
    if InMetaGroup(e, g) then e.(attrs := RewriteAttribute(e.attrs, "content")) else e
  }

  function MetaPass(es: seq<Element>, g: MetaGroup): (r: seq<Element>)
    ensures |r| == |es|
  {
    seq(|es|, k requires 0 <= k < |es| => MetaPassElement(es[k], g))
  }

  /** Some meta of group `g` has a `content` that names the source brand. */
  predicate MetaGroupPending(es: seq<Element>, g: MetaGroup)
  {
    exists k :: 0 <= k < |es| && InMetaGroup(es[k], g) && NamesSource(es[k].attrs, "content")
  }

  /** Passing one more element of `es` through a meta loop. */
  lemma MetaPassExtend(es: seq<Element>, g: MetaGroup, i: nat)
    requires i < |es|
    ensures MetaPass(es[..i + 1], g) + es[i + 1..] == (MetaPass(es[..i], g) + es[i..])[i := MetaPassElement(es[i], g)]
  {
  }

  /** Extending the scanned prefix by one element adds that element's work. */
  lemma MetaGroupPendingExtend(es: seq<Element>, g: MetaGroup, i: nat)
    requires i < |es|
    ensures MetaGroupPending(es[..i + 1], g) <==>
      MetaGroupPending(es[..i], g) || (InMetaGroup(es[i], g) && NamesSource(es[i].attrs, "content"))
  {
    if MetaGroupPending(es[..i + 1], g) && !(InMetaGroup(es[i], g) && NamesSource(es[i].attrs, "content")) {
      var k :| 0 <= k < i + 1 && InMetaGroup(es[..i + 1][k], g) && NamesSource(es[..i + 1][k].attrs, "content");
      assert es[..i][k] == es[k];
    }
    if MetaGroupPending(es[..i], g) {
      var k :| 0 <= k < i && InMetaGroup(es[..i][k], g) && NamesSource(es[..i][k].attrs, "content");
      assert es[..i + 1][k] == es[k];
    }
    if InMetaGroup(es[i], g) && NamesSource(es[i].attrs, "content") {
      assert es[..i + 1][i] == es[i];
    }
  }

  /** A meta loop with no work to do changes nothing. */
  lemma MetaPassQuiet(es: seq<Element>, g: MetaGroup)
    requires !MetaGroupPending(es, g)
    ensures MetaPass(es, g) == es
  {
    assert forall k :: 0 <= k < |es| ==> MetaPass(es, g)[k] == es[k];
  }

  /** The document pass has work to do exactly when the title names the source
      brand, or a meta loop, run in order, finds a `content` to rewrite. */
  lemma DocumentPendingStages(p: Page)
    ensures DocumentPending(p) <==>
      || (p.title != "" && Includes(p.title, Source))
      || MetaGroupPending(p.elements, AppName)
      || MetaGroupPending(MetaPass(p.elements, AppName), Summary)
  {
    var es := p.elements;
    var mid := MetaPass(es, AppName);
    if exists k :: 0 <= k < |es| && MetaContentPending(es[k]) {
      var k :| 0 <= k < |es| && MetaContentPending(es[k]);
      if !InMetaGroup(es[k], AppName) {
        assert mid[k] == es[k];
        assert MetaGroupPending(mid, Summary);
      }
    }
    if MetaGroupPending(mid, Summary) {
      var k :| 0 <= k < |mid| && InMetaGroup(mid[k], Summary) && NamesSource(mid[k].attrs, "content");
      if InMetaGroup(es[k], AppName) {
        NoResidue(es[k].attrs["content"]);
        assert false;
      } else {
        assert mid[k] == es[k];
        assert MetaContentPending(es[k]);
      }
    }
    if MetaGroupPending(es, AppName) {
      var k :| 0 <= k < |es| && InMetaGroup(es[k], AppName) && NamesSource(es[k].attrs, "content");
      assert MetaContentPending(es[k]);
    }
  }

  /** The title step: a non-empty title that names the source brand is
      replaced as a whole; any other title is kept. */
  function BrandTitle(title: string): string
  {
    if title != "" && Includes(title, Source) then ReplaceAll(title) else title
  }

  function DocumentPass(p: Page): Page
  {
    p.(title := BrandTitle(p.title), elements := MetaPass(MetaPass(p.elements, AppName), Summary))
  }

  /** The title after the document pass is the replaced title, on every page:
      the guard only skips titles the replace would leave as they are. */
  lemma DocumentPassTitle(p: Page)
    ensures DocumentPass(p).title == ReplaceAll(p.title)
  {
    if !Includes(p.title, Source) {
      ReplaceAllUnchanged(p.title);
    }
  }

  /** The title "Open WebUI - Settings" becomes "Canary Builds - Settings". */
  lemma DocumentPassSettings(p: Page, rest: string)
    requires rest == " - Settings" && p.title == Source + rest
    ensures DocumentPass(p).title == Target + rest
  {
    DocumentPassTitle(p);
    ReplaceAllSettings(p.title, rest);
  }

  /** Some `content` of a meta in either group names the source brand. */
  predicate MetaContentPending(e: Element)
  {
    (InMetaGroup(e, AppName) || InMetaGroup(e, Summary)) &&
    "content" in e.attrs && Includes(e.attrs["content"], Source)
  }

  predicate DocumentPending(p: Page)
  {
    Includes(p.title, Source) || exists k :: 0 <= k < |p.elements| && MetaContentPending(p.elements[k])
  }

  /** Document rule: the title loses every occurrence of the source brand; an
      element outside both meta groups is untouched; a meta in a group differs
      only in `content`, which ends with no occurrence of the source brand. */
  lemma DocumentPassRule(p: Page, k: nat)
    requires k < |p.elements|
    ensures var q := DocumentPass(p);
      && !Includes(q.title, Source)
      && (!Includes(p.title, Source) ==> q.title == p.title)
      && q.hasBody == p.hasBody && q.texts == p.texts
      && (!InMetaGroup(p.elements[k], AppName) && !InMetaGroup(p.elements[k], Summary) ==>
            q.elements[k] == p.elements[k])
      && q.elements[k].tag == p.elements[k].tag
      && q.elements[k].classes == p.elements[k].classes
      && q.elements[k].filter == p.elements[k].filter
      && ("content" in q.elements[k].attrs <==> "content" in p.elements[k].attrs)
      && (forall a :: a != "content" ==> GetAttribute(q.elements[k], a) == GetAttribute(p.elements[k], a))
      && ((InMetaGroup(p.elements[k], AppName) || InMetaGroup(p.elements[k], Summary))
            && "content" in p.elements[k].attrs ==>
            GetAttribute(q.elements[k], "content") == Some(ReplaceAll(p.elements[k].attrs["content"])))
  {
    var e := p.elements[k];
    NoResidue(p.title);
    if !Includes(p.title, Source) {
      ReplaceAllUnchanged(p.title);
    }
    if "content" in e.attrs {
      var c := e.attrs["content"];
      NoResidue(c);
      ReplaceAllIdempotent(c);
      if !Includes(c, Source) {
        ReplaceAllUnchanged(c);
      }
    }
  }

  // ------------------------------------------------------------ apply cycle

  /** `applyBranding`: logo pass, text pass, attribute pass, document pass. */
  function Apply(p: Page): Page
  {
    var logos := p.(elements := LogoPass(p.elements));
    var texts := logos.(texts := TextPass(logos.hasBody, logos.texts));
    var attrs := texts.(elements := AttributePass(texts.elements));
    DocumentPass(attrs)
  }

  /** The page is fully branded: every matched logo is marked, no tracked
      attribute, body text node outside an exempt parent, or title names the
      source brand. */
  predicate Branded(p: Page)
  {
    && (forall k :: 0 <= k < |p.elements| ==> IsLogoImage(p.elements[k]) ==> IsMarked(p.elements[k]))
    && (forall k :: 0 <= k < |p.elements| ==> !HasBrandedAttribute(p.elements[k]))
    && (p.hasBody ==> forall k :: 0 <= k < |p.texts| ==> !NeedsRewrite(p.texts[k]))
    && !Includes(p.title, Source)
  }

  /** The meta passes leave an element alone when no tracked attribute (and so
      not `content`) names the source brand. */
  lemma MetaPassOnClean(es: seq<Element>, g: MetaGroup)
    requires forall k :: 0 <= k < |es| ==> !HasBrandedAttribute(es[k])
    ensures MetaPass(es, g) == es
  {
    forall k | 0 <= k < |es|
      ensures MetaPass(es, g)[k] == es[k]
    {
      assert "content" in AttributeTargets;
    }
  }

  /** One apply cycle brands any page. */
  lemma ApplyBrands(p: Page)
    ensures Branded(Apply(p))
  {
    var logos := LogoPass(p.elements);
    LogoPassRule(p.elements);
    var texts := TextPass(p.hasBody, p.texts);
    forall k | 0 <= k < |texts| && p.hasBody
      ensures !NeedsRewrite(texts[k])
    {
      TextPassRule(p.hasBody, p.texts, k);
    }
    var attrs := AttributePass(logos);
    forall k | 0 <= k < |attrs|
      ensures (IsLogoImage(attrs[k]) ==> IsMarked(attrs[k])) && !HasBrandedAttribute(attrs[k])
    {
      AttributePassKeepsLogos(logos[k]);
      AttributePassRule(logos[k], "");
    }
    MetaPassOnClean(attrs, AppName);
    MetaPassOnClean(attrs, Summary);
    NoResidue(p.title);
  }

  /** An element that is not a meta ends an apply cycle as the logo pass and
      then the attribute pass leave it; the text and document passes do not
      touch it. */
  lemma ApplyNonMetaElement(p: Page, k: nat)
    requires k < |p.elements| && p.elements[k].tag != "META"
    ensures Apply(p).elements[k] == AttributePassElement(LogoPassElement(p.elements[k]))
  {
    var e := p.elements[k];
    var logos := p.(elements := LogoPass(p.elements));
    var texts := logos.(texts := TextPass(logos.hasBody, logos.texts));
    var attrs := texts.(elements := AttributePass(texts.elements));
    assert attrs.elements[k] == AttributePassElement(LogoPassElement(e));
    assert LogoPassElement(e).tag == e.tag by {
      UpdateImageOneShot(e);
      if IsLogoImage(e) && !IsMarked(e) {
        UpdateImageFields(e);
      }
    }
    UntrackedAttributeKept(LogoPassElement(e), "");
    DocumentPassRule(attrs, k);
  }

  /** An updated logo keeps through the attribute pass its tag, its new
      source, the missing `srcset`, the recorded original source and the
      marker: none of these is a tracked attribute. */
  lemma UpdatedLogoKept(e: Element)
    requires !IsMarked(e)
    ensures var a := AttributePassElement(UpdatedImage(e));
      && a.tag == e.tag
      && GetAttribute(a, "src") == Some(LogoPath)
      && "srcset" !in a.attrs
      && GetAttribute(a, OriginalSrcAttr) == Some(OriginalSrc(e))
      && IsMarked(a)
  {
    var u := UpdatedImage(e);
    UpdateImageFields(e);
    UntrackedAttributeKept(u, "src");
    UntrackedAttributeKept(u, "srcset");
    UntrackedAttributeKept(u, OriginalSrcAttr);
    UntrackedAttributeKept(u, LogoAppliedAttr);
  }

  /** An updated logo whose alt text was generic or named the source brand
      keeps the target brand as alt text through the attribute pass, which
      finds nothing to rewrite in it. */
  lemma UpdatedLogoAltKept(e: Element)
    requires !IsMarked(e) && AltNeedsBrand(ImageAlt(e))
    ensures GetAttribute(AttributePassElement(UpdatedImage(e)), "alt") == Some(Target)
  {
    var u := UpdatedImage(e);
    UpdateImageAltRule(e);
    TargetNotSource(u.attrs["alt"]);
    AttributePassRule(u, "alt");
  }

  /** What one apply cycle leaves on a matched logo that was not yet marked:
      the new source, no `srcset`, the recorded original source, the marker,
      and the target brand as alt text when the old alt was generic or named
      the source brand. */
  lemma ApplyLogoFields(p: Page, k: nat)
    requires k < |p.elements| && IsLogoImage(p.elements[k]) && !IsMarked(p.elements[k])
    ensures var r := Apply(p).elements[k];
      && GetAttribute(r, "src") == Some(LogoPath)
      && "srcset" !in r.attrs
      && GetAttribute(r, OriginalSrcAttr) == Some(OriginalSrc(p.elements[k]))
      && IsMarked(r)
      && (AltNeedsBrand(ImageAlt(p.elements[k])) ==> GetAttribute(r, "alt") == Some(Target))
  {
    ApplyNonMetaElement(p, k);
    UpdatedLogoKept(p.elements[k]);
    if AltNeedsBrand(ImageAlt(p.elements[k])) {
      UpdatedLogoAltKept(p.elements[k]);
    }
  }

  /** The marker keeps a logo's swap one-shot across cycles: an image already
      marked, whatever the page around it has become since, leaves another
      apply cycle with the same source, the same original-source record and
      still marked. */
  lemma ApplyKeepsMarkedLogo(p: Page, k: nat)
    requires k < |p.elements| && p.elements[k].tag == "IMG" && IsMarked(p.elements[k])
    ensures GetAttribute(Apply(p).elements[k], "src") == GetAttribute(p.elements[k], "src")
    ensures GetAttribute(Apply(p).elements[k], OriginalSrcAttr) == GetAttribute(p.elements[k], OriginalSrcAttr)
    ensures IsMarked(Apply(p).elements[k])
  {
    var e := p.elements[k];
    ApplyNonMetaElement(p, k);
    UpdateImageMarkerGuard(e);
    assert LogoPassElement(e) == e;
    UntrackedAttributeKept(e, "src");
    UntrackedAttributeKept(e, OriginalSrcAttr);
    UntrackedAttributeKept(e, LogoAppliedAttr);
  }

  /** A branded page is a fixed point: a further apply cycle changes nothing. */
  lemma BrandedFixpoint(p: Page)
    requires Branded(p)
    ensures Apply(p) == p
  {
    assert LogoPass(p.elements) == p.elements;
    assert TextPass(p.hasBody, p.texts) == p.texts;
    assert AttributePass(p.elements) == p.elements;
    MetaPassOnClean(p.elements, AppName);
    MetaPassOnClean(p.elements, Summary);
  }

  /** Idempotence: two apply cycles leave the page as one does. */
  lemma ApplyIdempotent(p: Page)
    ensures Apply(Apply(p)) == Apply(p)
  {
    ApplyBrands(p);
    BrandedFixpoint(Apply(p));
  }

  /** An apply cycle leaves a page unchanged exactly when it is already branded. */
  lemma ApplyFixpointIff(p: Page)
    ensures Apply(p) == p <==> Branded(p)
  {
    ApplyBrands(p);
    if Branded(p) {
      BrandedFixpoint(p);
    }
  }

  /** A branded page leaves no pass any work. */
  lemma BrandedNothingPending(p: Page)
    requires Branded(p)
    ensures !LogoPending(p.elements)
    ensures !TextPending(p.hasBody, p.texts)
    ensures !AttributePending(p.elements)
    ensures !DocumentPending(p)
  {
    assert "content" in AttributeTargets;
  }

  /** The four stages of one apply cycle, page by page: the last is the
      cycle's result; on a branded page no stage has work to do; and when no
      stage has work to do and the document pass changes nothing, the page
      was branded. */
  lemma ApplyStages(s0: Page, s1: Page, s2: Page, s3: Page, s4: Page)
    requires s1 == s0.(elements := LogoPass(s0.elements))
    requires s2 == s1.(texts := TextPass(s1.hasBody, s1.texts))
    requires s3 == s2.(elements := AttributePass(s2.elements))
    requires s4 == DocumentPass(s3)
    ensures s4 == Apply(s0)
    ensures Branded(s0) ==>
      && !LogoPending(s0.elements) && !TextPending(s1.hasBody, s1.texts)
      && !AttributePending(s2.elements) && !DocumentPending(s3)
    ensures (!LogoPending(s0.elements) && !TextPending(s1.hasBody, s1.texts)
             && !AttributePending(s2.elements) && s4 == s3) ==> Branded(s0)
  {
    LogoPassRule(s0.elements);
    TextPassChangesIff(s1.hasBody, s1.texts);
    AttributePassChangesIff(s2.elements);
    ApplyFixpointIff(s0);
    if Branded(s0) {
      BrandedNothingPending(s0);
      assert s1 == s0;
      assert s2 == s0;
      assert s3 == s0;
    }
  }

  /** What an apply cycle never touches: text under an exempt parent, and the
      untracked attributes, classes and filter of an element that is not a
      matched logo. */
  lemma ApplyLeavesUntouched(p: Page, k: nat, a: string)
    ensures k < |p.texts| && IsExempt(p.texts[k]) ==> Apply(p).texts[k] == p.texts[k]
    ensures k < |p.elements| && !IsLogoImage(p.elements[k]) && a !in AttributeTargets ==>
      && GetAttribute(Apply(p).elements[k], a) == GetAttribute(p.elements[k], a)
      && Apply(p).elements[k].classes == p.elements[k].classes
      && Apply(p).elements[k].filter == p.elements[k].filter
  {
    if k < |p.texts| {
      TextPassRule(p.hasBody, p.texts, k);
    }
    if k < |p.elements| && !IsLogoImage(p.elements[k]) && a !in AttributeTargets {
      var logos := p.(elements := LogoPass(p.elements));
      var texts := logos.(texts := TextPass(logos.hasBody, logos.texts));
      var attrs := texts.(elements := AttributePass(texts.elements));
      AttributePassRule(p.elements[k], a);
      assert a != "content";
      DocumentPassRule(attrs, k);
    }
  }
}
