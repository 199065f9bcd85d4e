/** The part of the browser's document that the branding script reads and writes,
    as plain values. Selector matching, tree walking and element identity are
    replaced by sequences in document order (see module Applicator). */
module Dom {

  datatype Option<T> = None | Some(value: T)
  {
    function GetOr(default: T): T
    {
      match this
      case Some(v) => v
      case None => default
    }
  }

  /** An element: its upper-case node name, its attributes (including `id`,
      `src`, `alt` and the `data-*` entries that back `dataset`), its class list
      and its inline `style.filter`. */
  datatype Element = Element(tag: string, attrs: map<string, string>, classes: set<string>, filter: string)

  /** A text node of the body subtree: its `nodeValue` and the node name of its
      immediate parent. */
  datatype TextNode = TextNode(value: string, parentTag: string)

  /** The kind of a DOM mutation record. */
  datatype MutationKind = ChildList | CharacterData | Attributes

  /** A mutation record as the observer callback receives it; `attributeName` is
      null except on attribute records. */
  datatype MutationRecord = MutationRecord(kind: MutationKind, attributeName: Option<string>)

  /** The whole page as a value: the document title, whether `document.body`
      exists, every element in document order, and the text nodes under the body
      in document order. */
  datatype Page = Page(title: string, hasBody: bool, elements: seq<Element>, texts: seq<TextNode>)

  /** `el.getAttribute(name)`: the value, or null when the attribute is absent. */
  function GetAttribute(e: Element, name: string): (r: Option<string>)
    ensures r.Some? <==> name in e.attrs
    ensures r.Some? ==> r.value == e.attrs[name]
  {
    if name in e.attrs then Some(e.attrs[name]) else None
  }

  /** The record queued by `setAttribute`, `removeAttribute` or a reflected
      property write of attribute `name`. */
  function AttributeWrite(name: string): MutationRecord
  {
    MutationRecord(Attributes, Some(name))
  }

  /** Every record of `rs` is an attribute record for one of `names`. */
  predicate AttributeRecords(rs: seq<MutationRecord>, names: seq<string>)
  {
    forall r :: r in rs ==> r.kind == Attributes && r.attributeName.Some? && r.attributeName.value in names
  }

  /** A log that grew from `before`: when the records from `from` up to the end
      of `before`, and those queued since, are all attribute writes of `names`,
      so is everything from `from` on. */
  lemma AttributeRecordsExtend(before: seq<MutationRecord>, log: seq<MutationRecord>, from: nat, names: seq<string>)
    requires from <= |before| && before <= log
    requires AttributeRecords(before[from..], names) && AttributeRecords(log[|before|..], names)
    ensures AttributeRecords(log[from..], names)
  {
    assert log[from..] == before[from..] + log[|before|..];
  }
}
