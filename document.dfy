/** The live document and the branding script's passes over it, written as the
    script runs them: loops over the elements and text nodes that update records
    in place. Each pass is proved to leave the page as the matching function of
    module Branding says, and every DOM write appends a mutation record to `log`,
    so "no write" is stated as `|log| == |old(log)|` beside `old(log) <= log`. */
module Applicator {
  import opened BrandText
  import opened Dom
  import opened Branding
  import opened Watcher

  class Document {
    /** `document.title`. */
    var title: string
    /** `document.body` is present. */
    var hasBody: bool
    /** Every element, in document order. */
    var elements: array<Element>
    /** The text nodes under the body, in document order. */
    var texts: array<TextNode>
    /** The mutation records the writes so far have queued. */
    var log: seq<MutationRecord>

    function State(): Page
      reads this, elements, texts
    {
      Page(title, hasBody, elements[..], texts[..])
    }

    constructor (page: Page)
      ensures State() == page && log == []
      ensures fresh(elements) && fresh(texts)
    {
      title := page.title;
      hasBody := page.hasBody;
      elements := new Element[|page.elements|](k requires 0 <= k < |page.elements| => page.elements[k]);
      texts := new TextNode[|page.texts|](k requires 0 <= k < |page.texts| => page.texts[k]);
      log := [];
    }

    /** `updateImage(img)`; `None` is the null image. Writes happen exactly when
        the image is present and not yet marked. */
    method UpdateImage(img: Option<nat>)
      requires img.Some? ==> img.value < elements.Length
      modifies this`log, elements
      ensures img.None? ==> elements[..] == old(elements[..])
      ensures img.Some? ==>
        elements[..] == old(elements[..])[img.value := UpdatedImage(old(elements[img.value]))]
      ensures log == old(log) + if img.None? then [] else UpdateImageWrites(old(elements[img.value]))
      ensures AttributeRecords(log[|old(log)|..], LogoWriteNames)
      ensures |log| == |old(log)| <==> img.None? || IsMarked(old(elements[img.value]))
    {
      if img.None? {
        return;
      }
      var i := img.value;
      UpdateImageWritesNames(elements[i]);
      if GetAttribute(elements[i], LogoAppliedAttr) == Some("true") {
        return;
      }
      RebrandImage(i);
    }

    /** The writes `updateImage` makes to an unmarked image `i`: the source
        swap, then the alt text and styling. */
    method RebrandImage(i: nat)
      requires i < elements.Length && !IsMarked(elements[i])
      modifies this`log, elements
      ensures elements[..] == old(elements[..])[i := UpdatedImage(old(elements[i]))]
      ensures log == old(log) + UpdateImageWrites(old(elements[i]))
    {
      ghost var e := elements[i];
      UpdateImageWritesSplit(e);
      SwapSource(i);
      assert elements[i] == SwapLogoSource(e);
      Restyle(i);
    }

    /** The source swap of `updateImage` on element `i`, one write at a time. */
    method SwapSource(i: nat)
      requires i < elements.Length
      modifies this`log, elements
      ensures elements[..] == old(elements[..])[i := SwapLogoSource(old(elements[i]))]
      ensures log == old(log) + SwapSourceWrites(old(elements[i]))
    {
      var e := elements[i];
      var original := GetAttribute(e, OriginalSrcAttr).GetOr("");
      if original == "" {
        original := ImageSrc(e);
      }
      e := e.(attrs := e.attrs[OriginalSrcAttr := original]);
      log := log + [AttributeWrite(OriginalSrcAttr)];
      e := e.(attrs := e.attrs[LogoAppliedAttr := "true"]);
      log := log + [AttributeWrite(LogoAppliedAttr)];
      if "srcset" in e.attrs {
        e := e.(attrs := e.attrs - {"srcset"});
        log := log + [AttributeWrite("srcset")];
      } else {
        assert e.attrs - {"srcset"} == e.attrs;
      }
      e := e.(attrs := e.attrs["src" := LogoPath]);
      log := log + [AttributeWrite("src")];
      e := e.(attrs := e.attrs[LogoMarkerAttr := "true"]);
      log := log + [AttributeWrite(LogoMarkerAttr)];
      elements[i] := e;
    }

    /** The alt and styling part of `updateImage` on element `i`. */
    method Restyle(i: nat)
      requires i < elements.Length
      modifies this`log, elements
      ensures elements[..] == old(elements[..])[i := RestyleLogo(old(elements[i]))]
      ensures log == old(log) + RestyleWrites(old(elements[i]))
    {
      var e := elements[i];
      var alt := ImageAlt(e);
      if alt == "" || alt == "logo" || Includes(alt, Source) {
        e := e.(attrs := e.attrs["alt" := Target]);
        log := log + [AttributeWrite("alt")];
      }
      if DarkInvert in e.classes {
        e := e.(classes := e.classes - {DarkInvert});
        log := log + [AttributeWrite("class")];
      } else {
        assert e.classes - {DarkInvert} == e.classes;
      }
      if e.filter != "" {
        e := e.(filter := "");
        log := log + [AttributeWrite("style")];
      }
      elements[i] := e;
    }

    /** `updateAllLogos`: `updateImage` on every element the logo selectors
        match, in document order. */
    method UpdateAllLogos()
      modifies this`log, elements
      ensures elements[..] == LogoPass(old(elements[..]))
      ensures old(log) <= log
      ensures AttributeRecords(log[|old(log)|..], LogoWriteNames)
      ensures |log| == |old(log)| <==> !LogoPending(old(elements[..]))
    {
      ghost var es := elements[..];
      var i := 0;
      while i < elements.Length
        invariant 0 <= i <= elements.Length
        invariant elements[..] == LogoPass(es[..i]) + es[i..]
        invariant old(log) <= log && AttributeRecords(log[|old(log)|..], LogoWriteNames)
        invariant |log| == |old(log)| <==> !LogoPending(es[..i])
      {
        ghost var prev := elements[..];
        if IsLogoImage(elements[i]) {
          ghost var before := log;
          UpdateImage(Some(i));
          AttributeRecordsExtend(before, log, |old(log)|, LogoWriteNames);
        } else {
          assert prev[i := LogoPassElement(es[i])] == prev;
        }
        LogoPassExtend(es, i);
        LogoPendingExtend(es, i);
        i := i + 1;
      }
      assert es[..i] == es;
    }

    /** `replaceTextNodes(document.body)`: with no body nothing happens;
        otherwise every text node that names the source brand and whose
        immediate parent is not exempt gets its value rewritten. */
    method ReplaceTextNodes()
      modifies this`log, texts
      ensures State() == old(State()).(texts := TextPass(hasBody, old(texts[..])))
      ensures old(log) <= log
      ensures forall r :: r in log[|old(log)|..] ==> r == MutationRecord(CharacterData, None)
      ensures |log| == |old(log)| <==> !TextPending(hasBody, old(texts[..]))
    {
      if !hasBody {
        return;
      }
      ghost var queued: seq<MutationRecord> := [];
      var i := 0;
      while i < texts.Length
        invariant 0 <= i <= texts.Length
        invariant forall k :: 0 <= k < i ==> texts[k] == RewriteTextNode(old(texts[k]))
        invariant forall k :: i <= k < texts.Length ==> texts[k] == old(texts[k])
        invariant log == old(log) + queued
        invariant forall r :: r in queued ==> r == MutationRecord(CharacterData, None)
        invariant |log| == |old(log)| <==> forall k :: 0 <= k < i ==> !NeedsRewrite(old(texts[k]))
      {
        var node := texts[i];
        if node.value != "" && Includes(node.value, Source) && node.parentTag !in SkipTextTags {
          texts[i] := node.(value := ReplaceAll(node.value));
          log := log + [MutationRecord(CharacterData, None)];
          queued := queued + [MutationRecord(CharacterData, None)];
        }
        i := i + 1;
      }
      assert log[|old(log)|..] == queued;
    }

    /** Element `i` in the attribute pass: when the `[attr*="Open WebUI"]`
        selector list matches it, its tracked attributes are rewritten. */
    method ReplaceElementAttributes(i: nat)
      requires i < elements.Length
      modifies this`log, elements
      ensures elements[..] == old(elements[..])[i := AttributePassElement(old(elements[i]))]
      ensures old(log) <= log
      ensures AttributeRecords(log[|old(log)|..], AttributeTargets)
      ensures |log| == |old(log)| <==> !HasBrandedAttribute(old(elements[i]))
    {
      if HasBrandedAttribute(elements[i]) {
        RewriteTrackedAttributes(i, AttributeTargets);
      }
    }

    /** The `forEach` over the attribute names `names` (the tracked ones, in
        list order) on element `i`: each one that names the source brand is
        rewritten on its own, one write each. */
    method RewriteTrackedAttributes(i: nat, names: seq<string>)
      requires i < elements.Length
      modifies this`log, elements
      ensures elements[i] == old(elements[i]).(attrs := RewriteAttributes(old(elements[i]).attrs, names))
      ensures forall k :: 0 <= k < elements.Length && k != i ==> elements[k] == old(elements[k])
      ensures old(log) <= log
      ensures AttributeRecords(log[|old(log)|..], names)
      ensures |log| == |old(log)| <==> forall k :: 0 <= k < |names| ==> !NamesSource(old(elements[i]).attrs, names[k])
    {
      ghost var orig := elements[i];
      var attrs := elements[i].attrs;
      var j := 0;
      while j < |names|
        invariant 0 <= j <= |names|
        invariant elements[i] == orig.(attrs := attrs)
        invariant forall k :: 0 <= k < elements.Length && k != i ==> elements[k] == old(elements[k])
        invariant RewriteAttributes(attrs, names[j..]) == RewriteAttributes(orig.attrs, names)
        invariant old(log) <= log && AttributeRecords(log[|old(log)|..], names)
        invariant |log| == |old(log)| ==> attrs == orig.attrs
        invariant |log| == |old(log)| <==> forall k :: 0 <= k < j ==> !NamesSource(orig.attrs, names[k])
      {
        var name := names[j];
        assert names[j..] == [name] + names[j + 1..];
        if name in attrs && Includes(attrs[name], Source) {
          attrs := attrs[name := ReplaceAll(attrs[name])];
          elements[i] := elements[i].(attrs := attrs);
          ghost var before := log;
          log := log + [AttributeWrite(name)];
          AttributeRecordsExtend(before, log, |old(log)|, names);
        }
        j := j + 1;
      }
    }

    /** `replaceAttributeBranding`: the elements the `[attr*="Open WebUI"]`
        selector list matches, each rewritten attribute by attribute. */
    method ReplaceAttributeBranding()
      modifies this`log, elements
      ensures State() == old(State()).(elements := AttributePass(old(elements[..])))
      ensures old(log) <= log
      ensures AttributeRecords(log[|old(log)|..], AttributeTargets)
      ensures |log| == |old(log)| <==> !AttributePending(old(elements[..]))
    {
      ghost var es := elements[..];
      var i := 0;
      while i < elements.Length
        invariant 0 <= i <= elements.Length
        invariant elements[..] == AttributePass(es[..i]) + es[i..]
        invariant old(log) <= log && AttributeRecords(log[|old(log)|..], AttributeTargets)
        invariant |log| == |old(log)| <==> !AttributePending(es[..i])
      {
        ghost var before := log;
        ReplaceElementAttributes(i);
        AttributeRecordsExtend(before, log, |old(log)|, AttributeTargets);
        AttributePassExtend(es, i);
        AttributePendingExtend(es, i);
        i := i + 1;
      }
      assert es[..i] == es;
    }

    /** One of the two meta loops of `replaceDocumentBranding`: the `content`
        of every meta in group `g` that names the source brand is rewritten. */
    method ReplaceMetaContent(g: MetaGroup)
      modifies this`log, elements
      ensures elements[..] == MetaPass(old(elements[..]), g)
      ensures old(log) <= log
      ensures AttributeRecords(log[|old(log)|..], ["content"])
      ensures |log| == |old(log)| <==> !MetaGroupPending(old(elements[..]), g)
    {
      ghost var es := elements[..];
      var i := 0;
      while i < elements.Length
        invariant 0 <= i <= elements.Length
        invariant elements[..] == MetaPass(es[..i], g) + es[i..]
        invariant old(log) <= log && AttributeRecords(log[|old(log)|..], ["content"])
        invariant |log| == |old(log)| <==> !MetaGroupPending(es[..i], g)
      {
        ghost var before := log;
        ReplaceMetaElement(i, g);
        AttributeRecordsExtend(before, log, |old(log)|, ["content"]);
        MetaPassExtend(es, g, i);
        MetaGroupPendingExtend(es, g, i);
        i := i + 1;
      }
      assert es[..i] == es;
    }

    /** Element `i` in a meta loop: when it is in group `g` and its `content`
        names the source brand, that attribute is rewritten. */
    method ReplaceMetaElement(i: nat, g: MetaGroup)
      requires i < elements.Length
      modifies this`log, elements
      ensures elements[..] == old(elements[..])[i := MetaPassElement(old(elements[i]), g)]
      ensures log == old(log) + if InMetaGroup(old(elements[i]), g) && NamesSource(old(elements[i]).attrs, "content")
        then [AttributeWrite("content")] else []
    {
      if InMetaGroup(elements[i], g) {
        var content := GetAttribute(elements[i], "content");
        if content.Some? && Includes(content.value, Source) {
          elements[i] := elements[i].(attrs := elements[i].attrs["content" := ReplaceAll(content.value)]);
          log := log + [AttributeWrite("content")];
          return;
        }
      }
      assert old(elements[..])[i := MetaPassElement(old(elements[i]), g)] == old(elements[..]);
    }

    /** `replaceDocumentBranding`: the title, then the application-name metas,
        then the Open Graph and description metas. */
    method ReplaceDocumentBranding()
      modifies this`log, this`title, elements
      ensures State() == DocumentPass(old(State()))
      ensures old(log) <= log
      ensures var t := if old(title) != "" && Includes(old(title), Source) then 1 else 0;
        && |old(log)| + t <= |log|
        && log[|old(log)|..|old(log)| + t] == (if t == 1 then [MutationRecord(ChildList, None)] else [])
        && AttributeRecords(log[|old(log)| + t..], ["content"])
      ensures |log| == |old(log)| <==> !DocumentPending(old(State()))
      ensures |log| == |old(log)| ==> State() == old(State())
    {
      if title != "" && Includes(title, Source) {
        title := ReplaceAll(title);
        log := log + [MutationRecord(ChildList, None)];
      }
      ghost var logTitle := log;
      ghost var es := elements[..];
      ReplaceMetaContent(AppName);
      ghost var logAppName := log;
      ReplaceMetaContent(Summary);
      AttributeRecordsExtend(logAppName, log, |logTitle|, ["content"]);
      DocumentPendingStages(old(State()));
      if |log| == |old(log)| {
        assert |logTitle| == |old(log)| && |logAppName| == |old(log)|;
        MetaPassQuiet(es, AppName);
        MetaPassQuiet(es, Summary);
      }
    }

    /** `applyBranding`: the four passes in order. It writes nothing exactly
        when the page is already branded, which is what lets the observer's
        feedback loop settle. */
    method ApplyBranding()
      modifies this`log, this`title, elements, texts
      ensures State() == Apply(old(State()))
      ensures old(log) <= log
      ensures |log| == |old(log)| <==> Branded(old(State()))
    {
      ghost var s0 := State();
      UpdateAllLogos();
      ghost var s1 := State();
      assert s1 == s0.(elements := LogoPass(s0.elements));
      ReplaceTextNodes();
      ghost var s2 := State();
      assert s2 == s1.(texts := TextPass(s1.hasBody, s1.texts));
      ReplaceAttributeBranding();
      ghost var s3 := State();
      ReplaceDocumentBranding();
      ApplyStages(s0, s1, s2, s3, State());
    }

    /** The observer callback for one batch: scan the records in order and, at
        the first that qualifies, apply the branding once and stop. */
    method OnMutations(batch: seq<MutationRecord>) returns (applied: nat)
      modifies this`log, this`title, elements, texts
      ensures applied == Reapplications(batch)
      ensures State() == if applied == 1 then Apply(old(State())) else old(State())
      ensures old(log) <= log
      ensures applied == 0 ==> log == old(log)
      ensures applied == 1 ==> (|log| == |old(log)| <==> Branded(old(State())))
    {
      applied := 0;
      for k := 0 to |batch|
        invariant forall j :: 0 <= j < k ==> !Qualifies(batch[j])
        invariant log == old(log) && title == old(title)
        invariant elements[..] == old(elements[..]) && texts[..] == old(texts[..])
      {
        if batch[k].kind == ChildList || batch[k].kind == CharacterData {
          ApplyBranding();
          applied := 1;
          return;
        }
        if batch[k].kind == Attributes && batch[k].attributeName.GetOr("") in AttributeTargets {
          ApplyBranding();
          applied := 1;
          return;
        }
      }
    }

    /** The observer sees its own writes: the records one callback queues are
        delivered to it as the next batch. That second callback writes
        nothing, so no third batch follows, and the page ends as one apply
        cycle leaves it (or untouched, when the first batch did not qualify). */
    method Settle(batch: seq<MutationRecord>) returns (echo: seq<MutationRecord>, quiet: seq<MutationRecord>)
      modifies this`log, this`title, elements, texts
      ensures log == old(log) + echo + quiet
      ensures echo == [] <==> Reapplications(batch) == 0 || Branded(old(State()))
      ensures Reapplications(batch) == 1 ==> Branded(State())
      ensures quiet == []
      ensures State() == if Reapplications(batch) == 1 then Apply(old(State())) else old(State())
    {
      var start := log;
      var first := OnMutations(batch);
      echo := log[|start|..];
      if first == 1 {
        ApplyBrands(old(State()));
        ApplyIdempotent(old(State()));
      } else {
        assert echo == [];
      }
      var mid := log;
      var second := OnMutations(echo);
      quiet := log[|mid|..];
    }
  }
}
